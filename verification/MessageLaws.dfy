/** What the calls on messages do to the tables, said of rows, columns and list entries alone
    (internal/service/send_message.go and chat_service.go). */
module MessageLaws {
  import opened Basics
  import opened Conversations
  import opened Messages
  import opened RateLimiting
  import opened ServiceSpec
  import opened Terms
  import CS = ConversationStore
  import MR = MessageRuns
  import MS = MessageStore
  import Reactions
  import ServiceRuns
  import Unread

  type Request = ServiceRuns.Request

  ghost function Apply(r: Request, w: World): World {
    ServiceRuns.Apply(r, w)
  }

  /** Two publications of a message, each of which may fail to appear. */
  ghost predicate IsAnnouncement(events: seq<MR.Event>, id: Id, kafka: Fate, push: Fate) {
    && |events| == (if kafka == Refused then 0 else 1) + (if push == Refused then 0 else 1)
    && forall i :: 0 <= i < |events| ==> events[i] == MR.Published(id)
  }

  /** The call went out to everybody after what was there. */
  ghost predicate Adds(before: seq<MR.Event>, after: seq<MR.Event>, id: Id, kafka: Fate, push: Fate) {
    before <= after && IsAnnouncement(after[|before|..], id, kafka, push)
  }

  lemma AnnouncesTwice(before: seq<MR.Event>, id: Id, kafka: Fate, push: Fate)
    ensures Adds(before, before + AnnouncedTwice(id, kafka, push), id, kafka, push)
  {
    assert (before + AnnouncedTwice(id, kafka, push))[|before|..] == AnnouncedTwice(id, kafka, push);
  }

  // ---- sending ----

  /** Ids are there, the text fits, a text message has one, and only text and system messages come
      without media. */
  predicate IsWellFormed(cmd: SendCommand) {
    && cmd.conversationId != "" && cmd.senderId != ""
    && |cmd.text| <= 4096 && (cmd.kind == "text" ==> cmd.text != "")
    && (cmd.kind != "text" && cmd.kind != "system" ==> cmd.media.Some?)
  }

  /** The sender is listed in the conversation, and is an admin there if only admins may send. */
  ghost predicate MaySend(cmd: SendCommand, found: map<Id, Row>) {
    && cmd.conversationId in found
    && IsListed(found[cmd.conversationId].participants, cmd.senderId)
    && (found[cmd.conversationId].onlyAdminsCanSend ==>
          IsAdminOf(found[cmd.conversationId].participants, cmd.senderId))
  }

  ghost predicate IsAllowed(cmd: SendCommand, now: int, w: World) {
    LastAllowed(CallsOf(w.calls, cmd.senderId) + [now])
  }

  /** The message is the one of the command, new and unmarked. */
  predicate Carries(m: MessageData, cmd: SendCommand, id: Id, now: int) {
    && m.id == id && m.conversationId == cmd.conversationId && m.senderId == cmd.senderId && m.kind == cmd.kind
    && m.text == cmd.text && m.mentions == cmd.mentions && m.media == cmd.media && m.replyTo == cmd.replyTo
    && m.forwardedFrom == cmd.forwardedFrom && m.reactions == [] && !m.edited && !m.deleted && m.createdAt == now
  }

  lemma WellFormedIff(cmd: SendCommand, id: Id)
    ensures Validate(NewMessage(id, cmd)) == if IsWellFormed(cmd) then None else Some(InvalidInput)
  { }

  lemma AllowedIffLast(cmd: SendCommand, now: int, w: World)
    ensures IsAllowed(cmd, now, w) <==>
            LastAllowed(CallsOf(CallsAfter(w.calls, cmd.senderId, now, Done), cmd.senderId))
  {
    var calls := CallsAfter(w.calls, cmd.senderId, now, Done);
    assert CallsOf(calls, cmd.senderId) == CallsOf(w.calls, cmd.senderId) + [now];
  }

  /** What keeps a send from being stored, in the order of the checks. */
  lemma SendRefusalLaw(cmd: SendCommand, id: Id, now: int, fates: SendFates, w: World)
    ensures var found, c := w.conversations.conversations, cmd.conversationId;
      RefusalOf(cmd, id, now, fates, w) ==
        if fates.limiter != Done then Some(StoreFailure)
        else if !IsAllowed(cmd, now, w) then Some(RateLimited)
        else if fates.conversation != Done then Some(StoreFailure)
        else if c !in found then Some(NotFound)
        else if !IsListed(found[c].participants, cmd.senderId) then Some(NotChatMember)
        else if !MaySend(cmd, found) then Some(Forbidden)
        else if !IsWellFormed(cmd) then Some(InvalidInput)
        else None
  {
    WellFormedIff(cmd, id);
    AllowedIffLast(cmd, now, w);
    if cmd.conversationId in w.conversations.conversations {
      ListedIsMember(w.conversations.conversations[cmd.conversationId].participants, cmd.senderId);
    }
  }

  /** A send succeeds exactly when the limiter allows it, the sender may send, the command is well formed
      and its statements are done. The answer is the message of the command. */
  lemma SendAnswerLaw(cmd: SendCommand, id: Id, now: int, fates: SendFates, w: World)
    ensures var answer := SendAnswer(cmd, id, now, fates, w);
      && (answer.Ok? <==>
            && fates.limiter == Done && IsAllowed(cmd, now, w) && fates.conversation == Done
            && MaySend(cmd, w.conversations.conversations) && IsWellFormed(cmd)
            && fates.row == Done && fates.lookup == Done)
      && (answer.Ok? ==> Carries(answer.value, cmd, id, now))
      && (answer.Err? && RefusalOf(cmd, id, now, fates, w).None? ==> answer == Err(StoreFailure))
      && (RefusalOf(cmd, id, now, fates, w).Some? ==> answer == Err(RefusalOf(cmd, id, now, fates, w).value))
  {
    SendRefusalLaw(cmd, id, now, fates, w);
  }

  /** The row of a new message: the parts of the command, each flat. */
  predicate HoldsCommand(c: Columns, cmd: SendCommand) {
    && c.senderId == cmd.senderId && c.kind == cmd.kind && c.text == cmd.text && c.mentions == cmd.mentions
    && c.reactions == [] && !c.edited && !c.deleted
    && (cmd.media.Some? ==>
          var m := cmd.media.value;
          && c.mediaUrl == m.url && c.mediaThumbnailUrl == m.thumbnailUrl && c.mediaMimeType == m.mimeType
          && c.mediaFileSize == m.fileSize && c.mediaFileName == m.fileName
          && c.mediaWidth == m.width && c.mediaHeight == m.height)
    && (cmd.media.None? ==> c == NoMedia(c))
    && (if cmd.replyTo.None? then c.replyToId == "" && c.replyToSenderId == "" && c.replyToPreview == ""
        else cmd.replyTo.value == Reply(c.replyToId, c.replyToSenderId, c.replyToPreview))
    && (if cmd.forwardedFrom.None? then c.forwardedFromId == "" && c.forwardedFromSenderId == ""
        else cmd.forwardedFrom.value == Forward(c.forwardedFromId, c.forwardedFromSenderId))
  }

  /** The send passed its checks and its row was not refused. */
  ghost predicate IsInserted(cmd: SendCommand, now: int, fates: SendFates, w: World) {
    && fates.limiter == Done && IsAllowed(cmd, now, w) && fates.conversation == Done
    && MaySend(cmd, w.conversations.conversations) && IsWellFormed(cmd) && fates.row != Refused
  }

  /** It then has one row more, found by its id if the second insert took effect too; a send that did
      not get there leaves the messages alone. */
  lemma SendStoresLaw(cmd: SendCommand, id: Id, now: int, fates: SendFates, w: World)
    requires IsNewId(id, w.messages)
    ensures var t, t' := w.messages, Apply(Request.SendMessage(cmd, id, now, fates), w).messages;
      if IsInserted(cmd, now, fates, w) then AddsRow(t, t', cmd, id, now, fates) else t' == t
  {
    SendRefusalLaw(cmd, id, now, fates, w);
    var t' := Apply(Request.SendMessage(cmd, id, now, fates), w).messages;
    if IsInserted(cmd, now, fates, w) {
      assert t' == AfterStore(Stamped(id, cmd, now), fates, w.messages);
      StoreAddsRow(cmd, id, now, fates, w.messages);
    }
  }

  ghost predicate AddsRow(t: MS.Tables, t': MS.Tables, cmd: SendCommand, id: Id, now: int, fates: SendFates) {
    var k := RowKey(cmd.conversationId, now / 1_000_000, id);
    && k !in t.messages && t'.messages.Keys == t.messages.Keys + {k} && HoldsCommand(t'.messages[k], cmd)
    && (forall j :: j in t.messages ==> t'.messages[j] == t.messages[j])
    && t'.messagesById ==
         if fates.row == Done && fates.lookup != Refused then t.messagesById[id := k] else t.messagesById
  }

  lemma StoreAddsRow(cmd: SendCommand, id: Id, now: int, fates: SendFates, t: MS.Tables)
    requires IsNewId(id, t) && fates.row != Refused
    ensures AddsRow(t, AfterStore(Stamped(id, cmd, now), fates, t), cmd, id, now, fates)
  {
    NewRowHolds(cmd, id, now);
    assert KeyOf(Stamped(id, cmd, now)) !in t.messages;
  }

  lemma NewRowHolds(cmd: SendCommand, id: Id, now: int)
    ensures KeyOf(Stamped(id, cmd, now)) == RowKey(cmd.conversationId, now / 1_000_000, id)
    ensures HoldsCommand(Flatten(Stamped(id, cmd, now)), cmd)
  { }

  predicate IsPrefixOf(p: string, s: string, n: nat) {
    p <= s && |p| == if |s| <= n then |s| else n
  }

  /** What a successful send makes of its conversation: a last message with the first 100 bytes. */
  ghost predicate ShowsLast(row: Row, row': Row, cmd: SendCommand, id: Id, now: int) {
    && row'.lastMessage.Some?
    && row' == row.(lastMessage := row'.lastMessage, updatedAt := now)
    && var last := row'.lastMessage.value;
       last.messageId == id && last.senderId == cmd.senderId && last.sentAt == now
       && IsPrefixOf(last.preview, cmd.text, 100)
  }

  /** The entries of a user whose increment took effect. */
  ghost function Counted(ps: seq<Participant>, user: Id, unread: nat -> Fate): set<int> {
    set i | 0 <= i < |ps| && ps[i].userId == user && unread(i) != Refused
  }

  lemma IncrementsCount(m: Unread.Counts, ps: seq<Participant>, sender: Id, c: Id, fates: nat -> Fate, u: Id, d: Id)
    ensures Unread.Count(Unread.BumpReached(m, Ids(ps), sender, c, fates), u, d) ==
            Unread.Count(m, u, d) + if d == c && u != sender then |Counted(ps, u, fates)| else 0
  {
    Unread.BumpReachedAdds(m, Ids(ps), sender, c, fates, u, d);
    assert Counted(ps, u, fates) == Unread.ReachedFor(Ids(ps), u, fates);
  }

  /** The counters after a send. */
  lemma SendCountsLaw(cmd: SendCommand, id: Id, now: int, fates: SendFates, w: World, u: Id, d: Id)
    ensures var c, w' := cmd.conversationId, AfterSend(cmd, id, now, fates, w);
      Unread.Count(w'.unread, u, d) == Unread.Count(w.unread, u, d) +
        if SendAnswer(cmd, id, now, fates, w).Ok? && c in w.conversations.conversations && d == c && u != cmd.senderId
        then |Counted(w.conversations.conversations[c].participants, u, fates.unread)| else 0
  {
    if SendAnswer(cmd, id, now, fates, w).Ok? {
      var ps := w.conversations.conversations[cmd.conversationId].participants;
      IncrementsCount(w.unread, ps, cmd.senderId, cmd.conversationId, fates.unread, u, d);
    }
  }

  /** A successful send is shown by its conversation, announced, and counted for every entry of the
      others as far as the statements for that take effect; one that fails does none of this. */
  lemma SendSpreadLaw(cmd: SendCommand, id: Id, now: int, fates: SendFates, w: World)
    ensures var answer, w' := SendAnswer(cmd, id, now, fates, w), Apply(Request.SendMessage(cmd, id, now, fates), w);
      var c := cmd.conversationId;
      var stored := if IsInserted(cmd, now, fates, w) then w.trace + [MR.Stored(id)] else w.trace;
      if answer.Ok?
      then && c in w.conversations.conversations && Adds(stored, w'.trace, id, fates.kafka, fates.push)
           && (if fates.lastMessage == Refused then w'.conversations == w.conversations
               else && w'.conversations.conversations.Keys == w.conversations.conversations.Keys
                    && ShowsLast(w.conversations.conversations[c], w'.conversations.conversations[c], cmd, id, now)
                    && w'.conversations == w.conversations.(conversations :=
                         w.conversations.conversations[c := w'.conversations.conversations[c]]))
           && forall u, d :: Unread.Count(w'.unread, u, d) == Unread.Count(w.unread, u, d) +
                if d == c && u != cmd.senderId
                then |Counted(w.conversations.conversations[c].participants, u, fates.unread)| else 0
      else w'.conversations == w.conversations && w'.unread == w.unread && w'.trace == stored
  {
    SendAnswerLaw(cmd, id, now, fates, w);
    SendRefusalLaw(cmd, id, now, fates, w);
    if SendAnswer(cmd, id, now, fates, w).Ok? {
      AnnouncesTwice(w.trace + [MR.Stored(id)], id, fates.kafka, fates.push);
      forall u, d { SendCountsLaw(cmd, id, now, fates, w, u, d); }
    }
  }

  // ---- editing and deleting ----

  /** An edit succeeds exactly for the sender of a live text message, within the length limit. The row
      keeps everything but text and edited mark, and the answer shows the new row. */
  lemma EditLaw(id: Id, user: Id, text: string, fate: nat -> Fate, w: World)
    ensures var answer, w' := EditAnswer(id, user, text, fate, w.messages),
                              Apply(Request.EditMessage(id, user, text, fate), w);
      var isRead := fate(0) == Done && fate(1) == Done;
      && w' == w.(messages := w'.messages, trace := w'.trace) && w'.messages.messagesById == w.messages.messagesById
      && (answer.Ok? ==> Adds(w.trace, w'.trace, id, fate(3), fate(4)))
      && (answer.Err? ==> w'.trace == w.trace)
      && (isRead && !IsStored(w.messages, id) ==> answer == Err(NotFound))
      && (!isRead || !IsStored(w.messages, id) ==> answer.Err? && w'.messages == w.messages)
      && (isRead && IsStored(w.messages, id) ==>
            var k := KeyFor(w.messages, id);
            var c := w.messages.messages[k];
            var allowed := c.senderId == user && !c.deleted && c.kind == "text" && |text| <= 4096;
            var c' := Tidy(c).(text := text, edited := true);
            && (answer.Ok? <==> allowed && fate(2) == Done)
            && (answer.Ok? ==> Shows(answer.value, k, c'))
            && (answer.Err? ==> answer.error == if c.senderId != user then Forbidden
                                                else if c.deleted then MessageDeleted
                                                else if allowed then StoreFailure else InvalidInput)
            && w'.messages.messages == if allowed && fate(2) != Refused then w.messages.messages[k := c']
                                       else w.messages.messages)
  {
    StoredIsFindable(w.messages, id);
    AnnouncesTwice(w.trace, id, fate(3), fate(4));
    if IsStored(w.messages, id) { BuildShows(KeyFor(w.messages, id), w.messages.messages[KeyFor(w.messages, id)]); }
    EditSteps(id, user, text, fate, w);
  }

  /** A deletion succeeds exactly for the sender. Text, mentions and media go; reactions, reply,
      forward and edited mark stay. */
  lemma DeleteLaw(id: Id, user: Id, fate: nat -> Fate, w: World)
    ensures var answer, w' := DeleteAnswer(id, user, fate, w.messages), Apply(Request.DeleteMessage(id, user, fate), w);
      var isRead := fate(0) == Done && fate(1) == Done;
      && w' == w.(messages := w'.messages, trace := w'.trace) && w'.messages.messagesById == w.messages.messagesById
      && (answer.None? ==> Adds(w.trace, w'.trace, id, fate(3), fate(4)))
      && (answer.Some? ==> w'.trace == w.trace)
      && (isRead && !IsStored(w.messages, id) ==> answer == Some(NotFound))
      && (!isRead || !IsStored(w.messages, id) ==> answer.Some? && w'.messages == w.messages)
      && (isRead && IsStored(w.messages, id) ==>
            var k := KeyFor(w.messages, id);
            var c := w.messages.messages[k];
            && answer == (if c.senderId != user then Some(Forbidden)
                          else if fate(2) == Done then None else Some(StoreFailure))
            && w'.messages.messages ==
                 if c.senderId == user && fate(2) != Refused
                 then w.messages.messages[k := NoMedia(Tidy(c)).(deleted := true, text := "", mentions := [])]
                 else w.messages.messages)
  {
    StoredIsFindable(w.messages, id);
    AnnouncesTwice(w.trace, id, fate(3), fate(4));
    if IsStored(w.messages, id) { BuildShows(KeyFor(w.messages, id), w.messages.messages[KeyFor(w.messages, id)]); }
    DeleteSteps(id, user, fate, w);
  }

  // ---- reactions ----

  /** The message can take one more reaction: at most 50 users an emoji and 20 emojis. */
  ghost predicate HasRoom(pairs: set<(string, Id)>, emoji: string) {
    var users, emojis := set p | p in pairs && p.0 == emoji :: p.1, set p | p in pairs :: p.0;
    if emoji in emojis then |users| < 50 else |emojis| < 20
  }

  lemma RoomIsRoom(pairs: set<(string, Id)>, emoji: string)
    ensures HasRoom(pairs, emoji) <==> Reactions.Room(pairs, emoji)
  { }

  /** The user is listed in the conversation of the message. */
  ghost predicate MaySee(t: CS.Tables, k: RowKey, user: Id) {
    k.conversationId in t.conversations && IsListed(t.conversations[k.conversationId].participants, user)
  }

  /** A reaction succeeds exactly for a member of the message's conversation, if it is there already or
      there is room. */
  lemma ReactAnswerLaw(id: Id, user: Id, emoji: string, fate: nat -> Fate, t: CS.Tables, m: MS.Tables)
    requires IsStored(m, id) ==> Reactions.Shape(m.messages[KeyFor(m, id)].reactions)
    ensures var answer := ReactAnswer(t, m, id, user, emoji, fate);
      var isRead := fate(0) == Done && fate(1) == Done && fate(2) == Done && fate(3) == Done && fate(4) == Done;
      && (isRead && !IsStored(m, id) ==> answer == Some(NotFound))
      && (!isRead || !IsStored(m, id) ==> answer.Some?)
      && (isRead && IsStored(m, id) ==>
            var k := KeyFor(m, id);
            var pairs := Reactions.Pairs(m.messages[k].reactions);
            answer == if k.conversationId !in t.conversations then Some(NotFound)
                      else if !MaySee(t, k, user) then Some(NotChatMember)
                      else if (emoji, user) in pairs then None
                      else if !HasRoom(pairs, emoji) then Some(ReactionLimitReached)
                      else if fate(5) == Done then None else Some(StoreFailure))
  {
    StoredIsFindable(m, id);
    if IsStored(m, id) {
      var k := KeyFor(m, id);
      BuildShows(k, m.messages[k]);
      RoomIsRoom(Reactions.Pairs(m.messages[k].reactions), emoji);
      Reactions.AddRefines(m.messages[k].reactions, emoji, user);
      if k.conversationId in t.conversations { ListedIsMember(t.conversations[k.conversationId].participants, user); }
    }
  }

  /** The reactions of one row have become these pairs, and nothing else has changed. */
  ghost predicate ChangesPairs(t: MS.Tables, t': MS.Tables, k: RowKey, pairs: set<(string, Id)>)
    requires k in t.messages
  {
    && t'.messages.Keys == t.messages.Keys && t'.messagesById == t.messagesById
    && (forall j :: j in t.messages && j != k ==> t'.messages[j] == t.messages[j])
    && t'.messages[k] == t.messages[k].(reactions := t'.messages[k].reactions)
    && Reactions.Shape(t'.messages[k].reactions) && Reactions.Pairs(t'.messages[k].reactions) == pairs
  }

  lemma ReactionsWritten(t: MS.Tables, id: Id, rs: seq<Reactions.Reaction>)
    requires IsStored(t, id) && Reactions.Shape(rs)
    ensures ChangesPairs(t, MS.Execute(MS.UpdateReactions(KeyOf(MS.Read(t, id)), rs), t), KeyFor(t, id),
                         Reactions.Pairs(rs))
  {
    BuildShows(KeyFor(t, id), t.messages[KeyFor(t, id)]);
  }

  /** What an accepted reaction makes of the message tables. */
  ghost predicate AddsPair(t: CS.Tables, m: MS.Tables, m': MS.Tables, id: Id, user: Id, emoji: string, write: Fate)
    requires IsStored(m, id)
  {
    var k := KeyFor(m, id);
    var pairs := Reactions.Pairs(m.messages[k].reactions);
    if MaySee(t, k, user) && (emoji, user) !in pairs && HasRoom(pairs, emoji) && write != Refused
    then ChangesPairs(m, m', k, pairs + {(emoji, user)}) else m' == m
  }

  lemma ReactionAddsPair(t: CS.Tables, m: MS.Tables, id: Id, user: Id, emoji: string, fate: nat -> Fate)
    requires IsStored(m, id) && Reactions.Shape(m.messages[KeyFor(m, id)].reactions) && AllDone(fate, 0, 5)
    ensures AddsPair(t, m, Reacted(t, m, id, user, emoji, fate), id, user, emoji, fate(5))
  {
    StoredIsFindable(m, id);
    var k := KeyFor(m, id);
    var rs := m.messages[k].reactions;
    BuildShows(k, m.messages[k]);
    RoomIsRoom(Reactions.Pairs(rs), emoji);
    Reactions.AddRefines(rs, emoji, user);
    ReactionChange(id, user, emoji, fate(5), m);
    ReactionsWritten(m, id, Reactions.AddTo(rs, emoji, user).1);
    if k.conversationId in t.conversations { ListedIsMember(t.conversations[k.conversationId].participants, user); }
  }

  /** It adds its pair to the row, is announced, and changes nothing else. */
  lemma ReactLaw(id: Id, user: Id, emoji: string, fate: nat -> Fate, w: World)
    requires IsStored(w.messages, id) ==> Reactions.Shape(w.messages.messages[KeyFor(w.messages, id)].reactions)
    ensures var answer, w' := ReactAnswer(w.conversations, w.messages, id, user, emoji, fate),
                              Apply(Request.AddReaction(id, user, emoji, fate), w);
      var isRead := fate(0) == Done && fate(1) == Done && fate(2) == Done && fate(3) == Done && fate(4) == Done;
      && w' == w.(messages := w'.messages, trace := w'.trace)
      && (answer.None? ==> Adds(w.trace, w'.trace, id, fate(6), fate(7)))
      && (answer.Some? ==> w'.trace == w.trace)
      && (if isRead && IsStored(w.messages, id)
          then AddsPair(w.conversations, w.messages, w'.messages, id, user, emoji, fate(5))
          else w'.messages == w.messages)
  {
    AnnouncesTwice(w.trace, id, fate(6), fate(7));
    FirstFive(fate);
    StoredIsFindable(w.messages, id);
    if IsStored(w.messages, id) && AllDone(fate, 0, 5) {
      ReactionAddsPair(w.conversations, w.messages, id, user, emoji, fate);
    }
  }

  /** Anybody may take away any pair; what is not there is taken away without a write, and announced. */
  lemma UnreactLaw(id: Id, user: Id, emoji: string, fate: nat -> Fate, w: World)
    requires IsStored(w.messages, id) ==> Reactions.Shape(w.messages.messages[KeyFor(w.messages, id)].reactions)
    ensures var answer, w' := UnreactAnswer(w.messages, id, user, emoji, fate),
                              Apply(Request.RemoveReaction(id, user, emoji, fate), w);
      var isRead := fate(0) == Done && fate(1) == Done && fate(2) == Done && fate(3) == Done;
      && w' == w.(messages := w'.messages, trace := w'.trace)
      && (answer.None? ==> Adds(w.trace, w'.trace, id, fate(5), fate(6)))
      && (answer.Some? ==> w'.trace == w.trace)
      && (isRead && !IsStored(w.messages, id) ==> answer == Some(NotFound))
      && (!isRead || !IsStored(w.messages, id) ==> answer.Some? && w'.messages == w.messages)
      && (isRead && IsStored(w.messages, id) ==>
            var k := KeyFor(w.messages, id);
            var pairs := Reactions.Pairs(w.messages.messages[k].reactions);
            var isThere := (emoji, user) in pairs;
            && answer == (if isThere && fate(4) != Done then Some(StoreFailure) else None)
            && if isThere && fate(4) != Refused
               then ChangesPairs(w.messages, w'.messages, k, pairs - {(emoji, user)})
               else w'.messages == w.messages)
  {
    StoredIsFindable(w.messages, id);
    AnnouncesTwice(w.trace, id, fate(5), fate(6));
    FirstFive(fate);
    if IsStored(w.messages, id) {
      var k := KeyFor(w.messages, id);
      var c := w.messages.messages[k];
      BuildShows(k, c);
      Reactions.RemoveRefines(c.reactions, emoji, user);
      ReactionsWritten(w.messages, id, Reactions.RemoveFrom(c.reactions, emoji, user).1);
      UnreactionChange(id, user, emoji, fate(4), w.messages);
    }
  }

  // ---- marking as read ----

  ghost predicate IsMessageOf(t: MS.Tables, messageId: Id, c: Id) {
    IsStored(t, messageId) && KeyFor(t, messageId).conversationId == c
  }

  /** Marking as read succeeds exactly for a member and a message of the conversation, if its five
      statements are done; the errors come in the order of the checks. */
  lemma ReadAnswerLaw(c: Id, user: Id, messageId: Id, fate: nat -> Fate, t: CS.Tables, m: MS.Tables)
    ensures var answer := MarkAnswer(t, m, c, user, messageId, fate);
      var mayRead := c in t.conversations && IsListed(t.conversations[c].participants, user);
      && (answer.None? <==> && mayRead && IsMessageOf(m, messageId, c) && fate(0) == Done && fate(1) == Done
                            && fate(2) == Done && fate(3) == Done && fate(4) == Done)
      && (fate(0) != Done ==> answer == Some(StoreFailure))
      && (fate(0) == Done && !mayRead ==> answer == Some(if c in t.conversations then NotChatMember else NotFound))
      && (fate(0) == Done && fate(1) == Done && fate(2) == Done && mayRead && !IsMessageOf(m, messageId, c) ==>
            answer == Some(NotFound))
      && (mayRead && IsMessageOf(m, messageId, c) && answer.Some? ==> answer == Some(StoreFailure))
  {
    FirstFive(fate);
    StoredIsFindable(m, messageId);
    if c in t.conversations { ListedIsMember(t.conversations[c].participants, user); }
    if IsStored(m, messageId) { BuildShows(KeyFor(m, messageId), m.messages[KeyFor(m, messageId)]); }
  }

  /** Only the participants of c have changed, by a mark in the first entry of the user. */
  ghost predicate MarksOnly(t: CS.Tables, t': CS.Tables, c: Id, user: Id, messageId: Id, now: int)
    requires c in t.conversations
  {
    && t'.conversations.Keys == t.conversations.Keys
    && (forall d :: d in t.conversations && d != c ==> t'.conversations[d] == t.conversations[d])
    && t'.conversations[c] == t.conversations[c].(participants := t'.conversations[c].participants)
    && MarksFirst(t.conversations[c].participants, t'.conversations[c].participants, user, messageId, now)
    && t'.userConversations == t.userConversations && t'.conversationParticipants == t.conversationParticipants
    && t'.directConversations == t.directConversations
  }

  lemma MarkedMarksOnly(c: Id, user: Id, messageId: Id, now: int, t: CS.Tables)
    requires c in t.conversations && IsListed(t.conversations[c].participants, user)
    ensures MarksOnly(t, CS.AfterOperation(CS.UpdateReadCursor(c, user, messageId, now), t), c, user, messageId, now)
  {
    var ps := t.conversations[c].participants;
    ListedIsMember(ps, user);
    MarkReadMarksFirst(ps, user, messageId, now);
    var write := CS.WriteParticipants(c, MarkRead(ps, user, messageId, now), None);
    assert CS.Script(CS.UpdateReadCursor(c, user, messageId, now), t) == [write];
    CS.RunOne(write, t);
  }

  lemma ReceiptClears(c: Id, user: Id, messageId: Id, fate: nat -> Fate, w: World)
    ensures var w' := AfterReceipt(c, user, messageId, fate, w);
      && w' == w.(unread := w'.unread, history := w'.history, trace := w'.trace)
      && Adds(w.trace, w'.trace, messageId, fate(6), fate(7))
      && forall u, d :: Unread.Count(w'.unread, u, d) ==
           if u == user && d == c && fate(5) != Refused then 0 else Unread.Count(w.unread, u, d)
  {
    AnnouncesTwice(w.trace, messageId, fate(6), fate(7));
  }

  /** A success has stored the position, cleared this counter and no other, and announced the receipt.
      Anything else changes nothing but, perhaps, the position. */
  lemma ReadLaw(c: Id, user: Id, messageId: Id, now: int, fate: nat -> Fate, w: World)
    ensures var answer, w' := MarkAnswer(w.conversations, w.messages, c, user, messageId, fate),
                              Apply(Request.MarkAsRead(c, user, messageId, now, fate), w);
      && w'.messages == w.messages && w'.calls == w.calls && w'.sends == w.sends
      && (answer.None? ==>
            && c in w.conversations.conversations
            && MarksOnly(w.conversations, w'.conversations, c, user, messageId, now)
            && Adds(w.trace, w'.trace, messageId, fate(6), fate(7))
            && forall u, d :: Unread.Count(w'.unread, u, d) ==
                 if u == user && d == c && fate(5) != Refused then 0 else Unread.Count(w.unread, u, d))
      && (answer.Some? ==>
            && w'.unread == w.unread && w'.trace == w.trace
            && (w'.conversations == w.conversations ||
                (fate(4) == TimedOut && c in w.conversations.conversations
                 && MarksOnly(w.conversations, w'.conversations, c, user, messageId, now))))
  {
    FirstFive(fate);
    ReadingSteps(c, user, messageId, now, fate, w);
    if ReadRefusal(w.conversations, w.messages, c, user, messageId, fate).None? {
      ListedIsMember(w.conversations.conversations[c].participants, user);
      MarkedMarksOnly(c, user, messageId, now, w.conversations);
      var t := CS.AfterOperation(CS.UpdateReadCursor(c, user, messageId, now), w.conversations);
      ReceiptClears(c, user, messageId, fate, w.(conversations := t));
    }
  }
}
