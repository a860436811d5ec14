/** Whole sequences of service calls, with any statement of any of them failing: what holds after each. */
module ServiceRuns {
  import opened Basics
  import opened Conversations
  import opened Messages
  import opened RateLimiting
  import opened ServiceSpec
  import CR = ConversationRepository
  import CS = ConversationStore
  import MR = MessageRuns
  import MS = MessageStore
  import Unread

  datatype Request =
    | SendMessage(cmd: SendCommand, id: Id, now: int, fates: SendFates)
    | EditMessage(id: Id, user: Id, text: string, fate: nat -> Fate)
    | DeleteMessage(id: Id, user: Id, fate: nat -> Fate)
    | AddReaction(id: Id, user: Id, emoji: string, fate: nat -> Fate)
    | RemoveReaction(id: Id, user: Id, emoji: string, fate: nat -> Fate)
    | MarkAsRead(c: Id, user: Id, id: Id, now: int, fate: nat -> Fate)
    | CreateDirectChat(user1: Id, user2: Id, id: Id, now: int, fate: nat -> Fate)
    | CreateGroup(id: Id, name: string, createdBy: Id, memberIds: seq<Id>, now: int, fate: nat -> Fate)
    | AddParticipant(c: Id, requester: Id, user: Id, now: int, fate: nat -> Fate)
    | RemoveParticipant(c: Id, requester: Id, user: Id, now: int, fate: nat -> Fate)

  /** New ids are new, and the clock of one user's sends does not run backwards. */
  ghost predicate Allowed(r: Request, w: World) {
    match r
    case SendMessage(cmd, id, now, _) => IsNewId(id, w.messages) && NotBefore(CallsOf(w.calls, cmd.senderId), now)
    case CreateDirectChat(_, _, id, _, _) => id !in w.conversations.conversations
    case CreateGroup(id, _, _, _, _, _) => id !in w.conversations.conversations
    case _ => true
  }

  ghost function Apply(r: Request, w: World): World {
    match r
    case SendMessage(cmd, id, now, fates) => AfterSend(cmd, id, now, fates, w)
    case EditMessage(id, user, text, fate) => AfterWrite(id, MR.Edit(user, text), fate, w)
    case DeleteMessage(id, user, fate) => AfterWrite(id, MR.Delete(user), fate, w)
    case AddReaction(id, user, emoji, fate) => AfterReact(id, user, emoji, fate, w)
    case RemoveReaction(id, user, emoji, fate) => AfterUnreact(id, user, emoji, fate, w)
    case MarkAsRead(c, user, id, now, fate) => AfterReading(c, user, id, now, fate, w)
    case CreateDirectChat(u1, u2, id, now, fate) =>
      w.(conversations := AfterDirect(u1, u2, id, now, fate, w.conversations))
    case CreateGroup(id, name, createdBy, ids, now, fate) =>
      w.(conversations := AfterGroup(id, name, createdBy, ids, now, fate, w.conversations))
    case AddParticipant(c, requester, user, now, fate) =>
      w.(conversations := AfterAdding(c, requester, user, now, fate, w.conversations))
    case RemoveParticipant(c, requester, user, now, fate) =>
      w.(conversations := AfterRemoving(c, requester, user, now, fate, w.conversations))
  }

  ghost predicate IsRun(rs: seq<Request>, w: World) {
    rs == [] || (IsRun(rs[..|rs| - 1], w) && Allowed(rs[|rs| - 1], After(rs[..|rs| - 1], w)))
  }

  ghost function After(rs: seq<Request>, w: World): World {
    if rs == [] then w else Apply(rs[|rs| - 1], After(rs[..|rs| - 1], w))
  }

  const EMPTY := World(CS.EMPTY, MS.Tables(map[], map[]), map[], map[], [], [], map[])

  // ---- the invariant ----

  /** Nothing is published before it is stored, every stored row has left its mark, and every lookup
      entry leads to a row. */
  ghost predicate Traced(t: MS.Tables, trace: seq<MR.Event>) {
    MR.TraceOk(trace) && MS.LookupsOk(t) && forall k :: k in t.messages ==> MR.Stored(k.id) in trace
  }

  /** No conversation lists a user twice or more than 50 of them, and none listed a user twice when a
      message was sent to it. */
  ghost predicate Peopled(t: CS.Tables, history: seq<Unread.Event>) {
    CS.AllWithinLimits(t) && forall i :: 0 <= i < |history| && history[i].Sent? ==> Distinct(history[i].members)
  }

  /** Every successful send was an allowed call. */
  ghost predicate Limited(w: World) {
    SendsAllowed(w.sends, w.calls) && forall u :: Nondecreasing(CallsOf(w.calls, u))
  }

  ghost predicate Sound(w: World) {
    Traced(w.messages, w.trace) && Peopled(w.conversations, w.history) && Limited(w)
  }

  // ---- sending ----

  lemma AnnounceTraced(t: MS.Tables, trace: seq<MR.Event>, id: Id, fate: Fate)
    requires Traced(t, trace) && MR.Stored(id) in trace
    ensures Traced(t, trace + Announced(id, fate)) && MR.Stored(id) in trace + Announced(id, fate)
  {
    if fate == Refused {
      assert trace + Announced(id, fate) == trace;
    } else {
      MR.TraceGrows(trace, MR.Published(id));
    }
  }

  lemma AnnounceTwiceTraced(t: MS.Tables, trace: seq<MR.Event>, id: Id, kafka: Fate, push: Fate)
    requires Traced(t, trace) && MR.Stored(id) in trace
    ensures Traced(t, trace + AnnouncedTwice(id, kafka, push))
  {
    AnnounceTraced(t, trace, id, kafka);
    AnnounceTraced(t, trace + Announced(id, kafka), id, push);
    assert trace + AnnouncedTwice(id, kafka, push) == trace + Announced(id, kafka) + Announced(id, push);
  }

  lemma StoreTraced(m: MessageData, fates: SendFates, t: MS.Tables, trace: seq<MR.Event>)
    requires Traced(t, trace) && IsNewId(m.id, t)
    ensures var t' := AfterStore(m, fates, t);
      var trace' := if fates.row == Refused then trace else trace + [MR.Stored(m.id)];
      Traced(t', trace') && (fates.row != Refused ==> MR.Stored(m.id) in trace')
  {
    if fates.row != Refused {
      MR.TraceGrows(trace, MR.Stored(m.id));
      assert (trace + [MR.Stored(m.id)])[|trace|] == MR.Stored(m.id);
      forall e | e in trace ensures e in trace + [MR.Stored(m.id)] { }
      assert KeyOf(m) !in t.messages;
    }
  }

  lemma SpreadPeopled(m: MessageData, members: seq<Id>, fates: SendFates, t: CS.Tables, history: seq<Unread.Event>)
    requires Peopled(t, history)
    requires m.conversationId in t.conversations && members == Ids(t.conversations[m.conversationId].participants)
    ensures Peopled(AfterPreview(m, fates, t), history + [Unread.Sent(m.conversationId, m.senderId, members)])
  {
    CS.LastMessageKeepsLimits(m.conversationId, Preview(m), t);
    assert CS.WithinLimits(t.conversations[m.conversationId].participants);
  }

  lemma CallLimited(cmd: SendCommand, id: Id, now: int, fates: SendFates, w: World)
    requires Limited(w) && NotBefore(CallsOf(w.calls, cmd.senderId), now)
    ensures Limited(AfterSend(cmd, id, now, fates, w))
  {
    var user, ok := cmd.senderId, SendAnswer(cmd, id, now, fates, w).Ok?;
    var before := CallsOf(w.calls, user);
    OneMoreSend(w.sends, w.calls, user, now, fates.limiter, ok);
    LaterIsNondecreasing(before, now);
    var w' := AfterSend(cmd, id, now, fates, w);
    forall u ensures Nondecreasing(CallsOf(w'.calls, u)) {
      assert Nondecreasing(CallsOf(w.calls, u));
    }
  }

  lemma SendSound(cmd: SendCommand, id: Id, now: int, fates: SendFates, w: World)
    requires Sound(w) && IsNewId(id, w.messages) && NotBefore(CallsOf(w.calls, cmd.senderId), now)
    ensures Sound(AfterSend(cmd, id, now, fates, w))
  {
    CallLimited(cmd, id, now, fates, w);
    if RefusalOf(cmd, id, now, fates, w).None? {
      var m, w1 := Stamped(id, cmd, now), AfterStoring(cmd, id, now, fates, w);
      StoreTraced(m, fates, w.messages, w.trace);
      if SendAnswer(cmd, id, now, fates, w).Ok? {
        AnnounceTwiceTraced(w1.messages, w1.trace, id, fates.kafka, fates.push);
        var members := Ids(w.conversations.conversations[cmd.conversationId].participants);
        SpreadPeopled(m, members, fates, w.conversations, w.history);
      }
    }
  }

  // ---- changes to stored messages ----

  lemma ChangeTraced(id: Id, change: MR.Change, write: Fate, t: MS.Tables, trace: seq<MR.Event>)
    requires Traced(t, trace)
    ensures Traced(MR.AfterChange(id, change, write, t), trace)
    ensures MS.Findable(t, id) ==> MR.Stored(id) in trace
  {
    if MS.Findable(t, id) {
      var k := t.messagesById[id];
      assert k.(id := id) == k;
      BuildIsNormalForm(k, t.messages[k]);
    }
  }

  lemma WriteSound(id: Id, change: MR.Change, fate: nat -> Fate, w: World)
    requires Sound(w)
    ensures Sound(AfterWrite(id, change, fate, w))
  {
    ChangeTraced(id, change, fate(2), w.messages, w.trace);
    if Accepted(w.messages, id, change, fate) && fate(2) == Done {
      AnnounceTwiceTraced(MR.AfterChange(id, change, fate(2), w.messages), w.trace, id, fate(3), fate(4));
    }
  }

  lemma ReactSound(id: Id, user: Id, emoji: string, fate: nat -> Fate, w: World)
    requires Sound(w)
    ensures Sound(AfterReact(id, user, emoji, fate, w))
  {
    ChangeTraced(id, MR.React(emoji, user), fate(5), w.messages, w.trace);
    if ReactOk(w.conversations, w.messages, id, user, emoji, fate) {
      AnnounceTwiceTraced(Reacted(w.conversations, w.messages, id, user, emoji, fate), w.trace, id, fate(6), fate(7));
    }
  }

  lemma UnreactSound(id: Id, user: Id, emoji: string, fate: nat -> Fate, w: World)
    requires Sound(w)
    ensures Sound(AfterUnreact(id, user, emoji, fate, w))
  {
    ChangeTraced(id, MR.Unreact(emoji, user), fate(4), w.messages, w.trace);
    if UnreactOk(w.messages, id, user, emoji, fate) {
      AnnounceTwiceTraced(Unreacted(w.messages, id, user, emoji, fate), w.trace, id, fate(5), fate(6));
    }
  }

  lemma ReadingSound(c: Id, user: Id, id: Id, now: int, fate: nat -> Fate, w: World)
    requires Sound(w)
    ensures Sound(AfterReading(c, user, id, now, fate, w))
  {
    CS.ReadCursorKeepsLimits(c, user, id, now, w.conversations);
    assert CS.AllWithinLimits(Marked(c, user, id, now, fate, w.conversations, w.messages));
    if MarkOk(c, user, id, fate, w.conversations, w.messages) {
      IsInTraced(w.messages, w.trace, id, c);
      AnnounceTwiceTraced(w.messages, w.trace, id, fate(6), fate(7));
    }
  }

  lemma IsInTraced(t: MS.Tables, trace: seq<MR.Event>, id: Id, c: Id)
    requires Traced(t, trace) && IsIn(t, id, c)
    ensures MR.Stored(id) in trace
  {
    var k := t.messagesById[id];
    assert k.(id := id) == k;
  }

  // ---- conversations ----

  lemma DirectPeopled(u1: Id, u2: Id, id: Id, now: int, fate: nat -> Fate, t: CS.Tables)
    requires CS.AllWithinLimits(t)
    ensures CS.AllWithinLimits(AfterDirect(u1, u2, id, now, fate, t))
  {
    if u1 != u2 {
      var row := NewDirectConversation(id, u1, u2, now);
      var ids := Ids(row.participants);
      assert ids == [u1, u2] || ids == [u2, u1];
      CS.SentIsPrefix(CS.CreateScript(row), fate, 2, t);
      CS.CreateKeepsLimits(row, TookEffect(fate, 2, |CS.CreateScript(row)|), t);
    }
  }

  lemma GroupPeopled(id: Id, name: string, createdBy: Id, ids: seq<Id>, now: int, fate: nat -> Fate, t: CS.Tables)
    requires CS.AllWithinLimits(t)
    ensures CS.AllWithinLimits(AfterGroup(id, name, createdBy, ids, now, fate, t))
  {
    if GroupRefusal(name, ids).None? {
      var row := NewGroup(id, name, createdBy, ids, now);
      NewGroupWithinLimits(id, name, createdBy, ids, now);
      CS.SentIsPrefix(CS.CreateScript(row), fate, 0, t);
      CS.CreateKeepsLimits(row, TookEffect(fate, 0, |CS.CreateScript(row)|), t);
    }
  }

  lemma AddingPeopled(c: Id, requester: Id, user: Id, now: int, fate: nat -> Fate, t: CS.Tables)
    requires CS.AllWithinLimits(t)
    ensures CS.AllWithinLimits(AfterAdding(c, requester, user, now, fate, t))
  {
    if AddVerdict(t.conversations, c, requester, user).None? {
      CS.AddKeepsLimits(c, NewMember(user), now, TookEffect(fate, 2, 3), t);
    }
  }

  lemma RemovingPeopled(c: Id, requester: Id, user: Id, now: int, fate: nat -> Fate, t: CS.Tables)
    requires CS.AllWithinLimits(t)
    ensures CS.AllWithinLimits(AfterRemoving(c, requester, user, now, fate, t))
  {
    CS.RemovalKeepsLimits(CS.Removal(now, TookEffect(fate, 2, 3)), c, user, t);
  }

  lemma RequestSound(r: Request, w: World)
    requires Sound(w) && Allowed(r, w)
    ensures Sound(Apply(r, w))
  {
    match r
    case SendMessage(cmd, id, now, fates) => SendSound(cmd, id, now, fates, w);
    case EditMessage(id, user, text, fate) => WriteSound(id, MR.Edit(user, text), fate, w);
    case DeleteMessage(id, user, fate) => WriteSound(id, MR.Delete(user), fate, w);
    case AddReaction(id, user, emoji, fate) => ReactSound(id, user, emoji, fate, w);
    case RemoveReaction(id, user, emoji, fate) => UnreactSound(id, user, emoji, fate, w);
    case MarkAsRead(c, user, id, now, fate) => ReadingSound(c, user, id, now, fate, w);
    case CreateDirectChat(u1, u2, id, now, fate) => DirectPeopled(u1, u2, id, now, fate, w.conversations);
    case CreateGroup(id, name, creator, ids, now, fate) =>
      GroupPeopled(id, name, creator, ids, now, fate, w.conversations);
    case AddParticipant(c, requester, user, now, fate) =>
      AddingPeopled(c, requester, user, now, fate, w.conversations);
    case RemoveParticipant(c, requester, user, now, fate) =>
      RemovingPeopled(c, requester, user, now, fate, w.conversations);
  }

  lemma {:induction false} RunSound(rs: seq<Request>)
    requires IsRun(rs, EMPTY)
    ensures Sound(After(rs, EMPTY))
    decreases |rs|
  {
    if rs == [] {
    } else {
      RunSound(rs[..|rs| - 1]);
      RequestSound(rs[|rs| - 1], After(rs[..|rs| - 1], EMPTY));
    }
  }

  // ---- what every sequence of calls guarantees ----

  /** Every conversation has distinct participants, at most 50; every event names a message stored
      before it; every lookup entry leads to its row. */
  lemma ServiceStaysSound(rs: seq<Request>)
    requires IsRun(rs, EMPTY)
    ensures var w := After(rs, EMPTY);
      && (forall c :: c in w.conversations.conversations ==>
            Distinct(Ids(w.conversations.conversations[c].participants))
            && |w.conversations.conversations[c].participants| <= MAX_GROUP_PARTICIPANTS)
      && (forall j :: 0 <= j < |w.trace| && w.trace[j].Published? ==> MR.Stored(w.trace[j].id) in w.trace[..j])
      && MS.LookupsOk(w.messages)
  {
    RunSound(rs);
    var w := After(rs, EMPTY);
    forall c | c in w.conversations.conversations
      ensures CS.WithinLimits(w.conversations.conversations[c].participants)
    { }
  }

  /** A user's sends that succeeded: the times of the limiter's calls they belong to. */
  ghost function SendsWithin(w: World, user: Id, from: int): set<int> {
    set i | i in SendsOf(w.sends, user) && from <= TimeOf(CallsOf(w.calls, user), i) < from + WINDOW
  }

  /** No user has more than 60 successful sends in any 60 seconds. */
  lemma SendsPerMinute(rs: seq<Request>, user: Id, from: int)
    requires IsRun(rs, EMPTY)
    ensures |SendsWithin(After(rs, EMPTY), user, from)| <= MAX_CALLS
  {
    RunSound(rs);
    var w := After(rs, EMPTY);
    var times, sent := CallsOf(w.calls, user), SendsOf(w.sends, user);
    SuccessfulSendsBound(times, sent, from);
    assert SendsWithin(w, user, from) == set i | i in sent && from <= times[i] < from + WINDOW;
  }

  /** A send is recorded as successful exactly when the caller was told so. */
  lemma SendIsRecordedIff(cmd: SendCommand, id: Id, now: int, fates: SendFates, w: World)
    requires Limited(w)
    ensures var w' := AfterSend(cmd, id, now, fates, w);
      && (SendAnswer(cmd, id, now, fates, w).Ok? <==> w'.sends != w.sends)
      && (w'.sends != w.sends ==> |CallsOf(w.calls, cmd.senderId)| in SendsOf(w'.sends, cmd.senderId)
                                  && TimeOf(CallsOf(w'.calls, cmd.senderId), |CallsOf(w.calls, cmd.senderId)|) == now)
  {
    var n := |CallsOf(w.calls, cmd.senderId)|;
    assert n !in SendsOf(w.sends, cmd.senderId);
  }

  /** The increments and clearings of a call, if any, took effect. */
  ghost predicate CacheUp(r: Request) {
    match r
    case SendMessage(_, _, _, fates) => forall n :: fates.unread(n) != Refused
    case MarkAsRead(_, _, _, _, fate) => fate(5) != Refused
    case _ => true
  }

  lemma SendCounted(cmd: SendCommand, id: Id, now: int, fates: SendFates, w: World)
    requires (forall n :: fates.unread(n) != Refused) && w.unread == Unread.After(w.history)
    ensures var w' := AfterSend(cmd, id, now, fates, w); w'.unread == Unread.After(w'.history)
  {
    if SendAnswer(cmd, id, now, fates, w).Ok? {
      var members := Ids(w.conversations.conversations[cmd.conversationId].participants);
      SendKeepsCounters(w.history, Stamped(id, cmd, now), members, fates.unread);
    }
  }

  lemma ReadingCounted(c: Id, user: Id, id: Id, now: int, fate: nat -> Fate, w: World)
    requires fate(5) != Refused && w.unread == Unread.After(w.history)
    ensures var w' := AfterReading(c, user, id, now, fate, w); w'.unread == Unread.After(w'.history)
  {
    Unread.AfterRead(w.history, user, c);
  }

  lemma RequestCounted(r: Request, w: World)
    requires CacheUp(r) && w.unread == Unread.After(w.history)
    ensures Apply(r, w).unread == Unread.After(Apply(r, w).history)
  {
    match r
    case SendMessage(cmd, id, now, fates) => SendCounted(cmd, id, now, fates, w);
    case MarkAsRead(c, user, id, now, fate) => ReadingCounted(c, user, id, now, fate, w);
    case _ =>
  }

  lemma {:induction false} CountersFollow(rs: seq<Request>)
    requires IsRun(rs, EMPTY) && forall i :: 0 <= i < |rs| ==> CacheUp(rs[i])
    ensures After(rs, EMPTY).unread == Unread.After(After(rs, EMPTY).history)
    decreases |rs|
  {
    if rs == [] {
    } else {
      CountersFollow(rs[..|rs| - 1]);
      var w, r := After(rs[..|rs| - 1], EMPTY), rs[|rs| - 1];
      assert CacheUp(r);
      RequestCounted(r, w);
    }
  }

  /** In every sequence of calls in which the cache does not fail, whatever else does, each counter is
      the number of messages for the user since the user last read the conversation. */
  lemma CountersAreUnread(rs: seq<Request>, user: Id, c: Id)
    requires IsRun(rs, EMPTY) && forall i :: 0 <= i < |rs| ==> CacheUp(rs[i])
    ensures var w := After(rs, EMPTY); Unread.Count(w.unread, user, c) == |Unread.UnreadSends(w.history, user, c)|
  {
    RunSound(rs);
    CountersFollow(rs);
    Unread.CounterIsUnreadCount(After(rs, EMPTY).history, user, c);
  }
}
