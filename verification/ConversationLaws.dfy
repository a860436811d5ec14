/** What the calls on conversations do to the tables, said of rows, participant entries and index pairs
    alone (internal/service/create_conversation.go). */
module ConversationLaws {
  import opened Basics
  import opened Conversations
  import opened ServiceSpec
  import opened Terms
  import CS = ConversationStore
  import CR = ConversationRepository
  import ServiceRuns
  import TextKeys

  type Request = ServiceRuns.Request

  /** The statements of a call from number first on, as many as these, were all done. */
  lemma AllDoneFrom(fate: nat -> Fate, first: nat, count: nat)
    ensures NothingFails(fate) ==> AllDone(fate, first, count)
    ensures AllDone(fate, 1, 4) <==> fate(1) == Done && fate(2) == Done && fate(3) == Done && fate(4) == Done
  {
    AllDoneMeans(fate, first, count);
    AllDoneMeans(fate, 1, 4);
  }

  // ---- participants ----

  /** Only these rows and index pairs of conversation c differ. */
  ghost predicate OnlyConversation(t: CS.Tables, t': CS.Tables, c: Id) {
    && t'.conversations.Keys == t.conversations.Keys && t'.directConversations == t.directConversations
    && forall d :: d in t.conversations && d != c ==> t'.conversations[d] == t.conversations[d]
  }

  /** An add succeeds exactly when an admin asks, for a user who is not in the group, while the group has
      fewer than 50 entries; each refusal has its own error. */
  lemma AddAnswerLaw(c: Id, requester: Id, user: Id, fate: nat -> Fate, found: map<Id, Row>)
    ensures PartAnswer(AddVerdict(found, c, requester, user), fate) ==
      if fate(0) != Done then Some(StoreFailure)
      else if c !in found then Some(NotFound)
      else if !IsAdminOf(found[c].participants, requester) then Some(Forbidden)
      else if found[c].kind == Direct then Some(InvalidInput)
      else if IsListed(found[c].participants, user) then Some(AlreadyMember)
      else if |found[c].participants| >= 50 then Some(GroupFull)
      else if fate(1) == Done && fate(2) == Done && fate(3) == Done && fate(4) == Done then None
      else Some(StoreFailure)
  {
    AllDoneFrom(fate, 0, 0);
    if c in found {
      ListedIsMember(found[c].participants, requester);
      ListedIsMember(found[c].participants, user);
    }
  }

  /** The old entries stay as they were, in place; the one more is the user's, an ordinary member who has
      read nothing. */
  ghost predicate AppendsMember(ps: seq<Participant>, ps': seq<Participant>, user: Id) {
    && |ps'| == |ps| + 1 && ps <= ps'
    && ps'[|ps|].userId == user && ps'[|ps|].role == Member
    && ps'[|ps|].lastReadMessageId == "" && ps'[|ps|].lastReadAt == 0
  }

  lemma AppendingMakesNoAdmin(ps: seq<Participant>, ps': seq<Participant>, user: Id, x: Id)
    requires AppendsMember(ps, ps', user)
    ensures IsAdminOf(ps', x) <==> IsAdminOf(ps, x)
    ensures IsListed(ps', x) <==> IsListed(ps, x) || x == user
  {
    assert ps' == ps + [ps'[|ps|]];
    forall p ensures p in ps' <==> p in ps || p == ps'[|ps|] { }
    assert ps'[|ps|] in ps';
  }

  /** A success appends the user, an ordinary member, to the list and to both indexes, and makes nobody
      an admin. A refusal writes nothing. */
  lemma AddLaw(c: Id, requester: Id, user: Id, now: int, fate: nat -> Fate, w: World)
    ensures var t, w' := w.conversations, ServiceRuns.Apply(Request.AddParticipant(c, requester, user, now, fate), w);
      var verdict, t' := AddVerdict(t.conversations, c, requester, user), w'.conversations;
      && w' == w.(conversations := t')
      && (PartAnswer(verdict, fate).None? ==>
            && c in t.conversations && OnlyConversation(t, t', c)
            && var ps, ps' := t.conversations[c].participants, t'.conversations[c].participants;
               && AppendsMember(ps, ps', user)
               && (forall x :: IsAdminOf(ps', x) <==> IsAdminOf(ps, x))
               && t'.conversations[c] == t.conversations[c].(participants := ps', updatedAt := now)
               && t'.userConversations == t.userConversations + {(user, c)}
               && t'.conversationParticipants == t.conversationParticipants + {(c, user)})
      && (fate(0) != Done || verdict.Some? ==> t' == t)
  {
    var t := w.conversations;
    if PartAnswer(AddVerdict(t.conversations, c, requester, user), fate).None? {
      AllTookEffect(fate, 2, 3);
      CS.AddPrefix(c, NewMember(user), now, 3, t);
      var ps := t.conversations[c].participants;
      forall x ensures IsAdminOf(ps + [NewMember(user)], x) <==> IsAdminOf(ps, x) {
        AppendingMakesNoAdmin(ps, ps + [NewMember(user)], user, x);
      }
    }
  }

  /** A removal succeeds exactly when the user or an admin asks. */
  lemma RemoveAnswerLaw(c: Id, requester: Id, user: Id, fate: nat -> Fate, found: map<Id, Row>)
    ensures PartAnswer(RemoveVerdict(found, c, requester, user), fate) ==
      if fate(0) != Done then Some(StoreFailure)
      else if c !in found then Some(NotFound)
      else if requester != user && !IsAdminOf(found[c].participants, requester) then Some(Forbidden)
      else if fate(1) == Done && fate(2) == Done && fate(3) == Done && fate(4) == Done then None
      else Some(StoreFailure)
  {
    AllDoneFrom(fate, 0, 0);
    if c in found { ListedIsMember(found[c].participants, requester); }
  }

  /** A success takes out every entry of the user and leaves the others as they were, in their order.
      A refusal writes nothing. */
  lemma RemoveLaw(c: Id, requester: Id, user: Id, now: int, fate: nat -> Fate, w: World) returns (at: seq<nat>)
    ensures var t, w' := w.conversations,
                         ServiceRuns.Apply(Request.RemoveParticipant(c, requester, user, now, fate), w);
      var verdict, t' := RemoveVerdict(t.conversations, c, requester, user), w'.conversations;
      && w' == w.(conversations := t')
      && (PartAnswer(verdict, fate).None? ==>
            && c in t.conversations && OnlyConversation(t, t', c)
            && var ps, ps' := t.conversations[c].participants, t'.conversations[c].participants;
               && KeepsOthers(ps, ps', user, at)
               && t'.conversations[c] == t.conversations[c].(participants := ps', updatedAt := now)
               && t'.userConversations == t.userConversations - {(user, c)}
               && t'.conversationParticipants == t.conversationParticipants - {(c, user)})
      && (fate(0) != Done || verdict.Some? ==> t' == t)
  {
    var t := w.conversations;
    at := [];
    if PartAnswer(RemoveVerdict(t.conversations, c, requester, user), fate).None? {
      AllTookEffect(fate, 2, 3);
      CS.RemovePrefix(CS.Removal(now, 3), c, user, t);
      at := WithoutKeepsOthers(t.conversations[c].participants, user);
    }
  }

  // ---- new conversations ----

  /** The tables with one row more, both indexes with its users. */
  ghost predicate AddsConversation(t: CS.Tables, t': CS.Tables, row: Row) {
    && t'.conversations == t.conversations[row.id := row]
    && (forall e :: e in t'.userConversations <==>
          e in t.userConversations || (e.1 == row.id && IsListed(row.participants, e.0)))
    && (forall e :: e in t'.conversationParticipants <==>
          e in t.conversationParticipants || (e.0 == row.id && IsListed(row.participants, e.1)))
  }

  lemma CreateAdds(row: Row, t: CS.Tables)
    requires CS.Claims(row) ==> CS.RowKey(row) !in t.directConversations
    ensures AddsConversation(t, CS.Run(CS.CreateScript(row), t), row)
  {
    CS.CreateRun(row, t);
    forall u ensures u in Members(row.participants) <==> IsListed(row.participants, u) {
      ListedIsMember(row.participants, u);
    }
  }

  predicate IsNewEntry(p: Participant, user: Id, role: Role, now: int) {
    p.userId == user && p.role == role && p.joinedAt == now && p.lastReadMessageId == "" && p.lastReadAt == 0
  }

  predicate IsNewRow(row: Row, id: Id, kind: Kind, name: string, createdBy: Id, now: int) {
    && row.id == id && row.kind == kind && row.name == name && row.createdBy == createdBy
    && row.lastMessage == None && !row.onlyAdminsCanSend && row.createdAt == now && row.updatedAt == now
  }

  /** A new direct chat has two ordinary members, the smaller id first. */
  predicate IsNewDirect(row: Row, user1: Id, user2: Id, id: Id, now: int) {
    && IsNewRow(row, id, Direct, "", user1, now) && |row.participants| == 2
    && var p, q := row.participants[0], row.participants[1];
       || (IsNewEntry(p, user1, Member, now) && IsNewEntry(q, user2, Member, now) && !Less(user2, user1))
       || (IsNewEntry(p, user2, Member, now) && IsNewEntry(q, user1, Member, now) && !Less(user1, user2))
  }

  lemma NewDirectIsNew(user1: Id, user2: Id, id: Id, now: int)
    ensures IsNewDirect(NewDirectConversation(id, user1, user2, now), user1, user2, id, now)
    ensures CS.Claims(NewDirectConversation(id, user1, user2, now))
    ensures CS.RowKey(NewDirectConversation(id, user1, user2, now)) == TextKeys.DirectKey(user1, user2)
  {
    DirectConversationIsSymmetric(id, user1, user2, now);
    if Less(user1, user2) && Less(user2, user1) {
      LessTransitive(user1, user2, user1);
      LessIrreflexive(user1);
    }
  }

  /** A free key is claimed for a new conversation; only failures can prevent that. */
  lemma FreeKeyLaw(user1: Id, user2: Id, id: Id, now: int, fate: nat -> Fate, t: CS.Tables)
    requires user1 != user2 && TextKeys.DirectKey(user1, user2) !in t.directConversations
    ensures var answer, t' := DirectAnswer(user1, user2, id, now, fate, t), AfterDirect(user1, user2, id, now, fate, t);
      && (NothingFails(fate) ==> answer.Ok?)
      && (answer.Ok? ==>
            && IsNewDirect(answer.value, user1, user2, id, now) && AddsConversation(t, t', answer.value)
            && t'.directConversations == t.directConversations[TextKeys.DirectKey(user1, user2) := id])
  {
    var row := NewDirectConversation(id, user1, user2, now);
    NewDirectIsNew(user1, user2, id, now);
    AllDoneFrom(fate, 2, |CS.CreateScript(row)|);
    CS.SentIsPrefix(CS.CreateScript(row), fate, 2, t);
    CreateAdds(row, t);
    CS.CreateRun(row, t);
  }

  /** A key that is held is never claimed again: its conversation is returned, if it is there. */
  lemma HeldKeyLaw(user1: Id, user2: Id, id: Id, now: int, fate: nat -> Fate, t: CS.Tables)
    requires user1 != user2 && TextKeys.DirectKey(user1, user2) in t.directConversations
    ensures var c := t.directConversations[TextKeys.DirectKey(user1, user2)];
      && AfterDirect(user1, user2, id, now, fate, t) == t
      && (DirectAnswer(user1, user2, id, now, fate, t).Ok? ==>
            c in t.conversations && DirectAnswer(user1, user2, id, now, fate, t).value == t.conversations[c].(id := c))
      && (NothingFails(fate) ==>
            if c in t.conversations then DirectAnswer(user1, user2, id, now, fate, t).Ok?
            else DirectAnswer(user1, user2, id, now, fate, t) == Err(DuplicateConversation))
  {
    NewDirectIsNew(user1, user2, id, now);
  }

  /** Nobody chats with themselves. Otherwise a success returns the conversation that holds the key of the
      two users: the stored one, without a write, or a new one. */
  lemma DirectLaw(user1: Id, user2: Id, id: Id, now: int, fate: nat -> Fate, w: World)
    ensures var t, w' := w.conversations,
                         ServiceRuns.Apply(Request.CreateDirectChat(user1, user2, id, now, fate), w);
      var answer, key, t' := DirectAnswer(user1, user2, id, now, fate, t), TextKeys.DirectKey(user1, user2),
                             w'.conversations;
      && w' == w.(conversations := t')
      && (user1 == user2 ==> answer == Err(InvalidInput) && t' == t)
      && (user1 != user2 && NothingFails(fate) ==>
            if key in t.directConversations && t.directConversations[key] !in t.conversations
            then answer == Err(DuplicateConversation) else answer.Ok?)
      && (key in t.directConversations ==> t' == t)
      && (answer.Ok? && key in t.directConversations ==>
            var c := t.directConversations[key];
            c in t.conversations && answer.value == t.conversations[c].(id := c))
      && (answer.Ok? && key !in t.directConversations ==>
            && IsNewDirect(answer.value, user1, user2, id, now) && AddsConversation(t, t', answer.value)
            && t'.directConversations == t.directConversations[key := id])
  {
    if user1 != user2 {
      if TextKeys.DirectKey(user1, user2) in w.conversations.directConversations {
        HeldKeyLaw(user1, user2, id, now, fate, w.conversations);
      } else {
        FreeKeyLaw(user1, user2, id, now, fate, w.conversations);
      }
    }
  }

  /** A new group has the creator as its only admin, and every other user of the list once, in order of
      first appearance. */
  ghost predicate IsNewGroup(row: Row, name: string, createdBy: Id, memberIds: seq<Id>, id: Id, now: int) {
    var ps, named := row.participants, [createdBy] + memberIds;
    && IsNewRow(row, id, Group, name, createdBy, now)
    && 1 <= |ps| <= 50 && IsNewEntry(ps[0], createdBy, Admin, now)
    && (forall i :: 1 <= i < |ps| ==> IsNewEntry(ps[i], ps[i].userId, Member, now))
    && (forall i, j :: 0 <= i < j < |ps| ==> ps[i].userId != ps[j].userId)
    && (forall u :: IsListed(ps, u) <==> u in named)
    && (forall i, j :: 0 <= i < j < |ps| ==> ComesFirst(named, ps[i].userId, ps[j].userId))
  }

  ghost predicate ComesFirst(named: seq<Id>, u: Id, v: Id) {
    exists k :: 0 <= k < |named| && named[k] == u && v !in named[..k]
  }

  lemma {:induction false} FirstAppearancesInOrder(ids: seq<Id>, i: nat, j: nat)
    requires i < j < |FirstAppearances(ids)|
    ensures ComesFirst(ids, FirstAppearances(ids)[i], FirstAppearances(ids)[j])
    decreases |ids|
  {
    var n := |ids| - 1;
    var front, before := ids[..n], FirstAppearances(ids[..n]);
    FirstAppearancesAreASet(front);
    var u, v := FirstAppearances(ids)[i], FirstAppearances(ids)[j];
    if j < |before| {
      FirstAppearancesInOrder(front, i, j);
      var k :| 0 <= k < |front| && front[k] == u && v !in front[..k];
      assert ids[k] == u && ids[..k] == front[..k];
    } else {
      assert u in Elements(before);
      var k :| 0 <= k < |front| && front[k] == u;
      assert ids[k] == u && v == ids[n] && v !in front;
      forall x | x in ids[..k] ensures x in front { var m :| 0 <= m < k && ids[..k][m] == x; assert front[m] == x; }
    }
  }

  lemma NewGroupIsNew(id: Id, name: string, createdBy: Id, memberIds: seq<Id>, now: int)
    requires GroupRefusal(name, memberIds).None?
    ensures IsNewGroup(NewGroup(id, name, createdBy, memberIds, now), name, createdBy, memberIds, id, now)
  {
    var row, named := NewGroup(id, name, createdBy, memberIds, now), [createdBy] + memberIds;
    NewGroupWithinLimits(id, name, createdBy, memberIds, now);
    FirstAppearancesAreASet(named);
    FirstAppearsFirst(named);
    forall u ensures IsListed(row.participants, u) <==> u in named {
      ListedIsMember(row.participants, u);
      assert u in Elements(FirstAppearances(named)) <==> u in Elements(named);
    }
    forall i, j | 0 <= i < j < |row.participants|
      ensures row.participants[i].userId != row.participants[j].userId
      ensures ComesFirst(named, row.participants[i].userId, row.participants[j].userId)
    {
      assert Ids(row.participants)[i] != Ids(row.participants)[j];
      FirstAppearancesInOrder(named, i, j);
    }
  }

  /** A group is made exactly when it has a name of at most 100 bytes and a list of 2 to 49 entries; a
      longer list is too many, and a refusal writes nothing. */
  lemma GroupLaw(id: Id, name: string, createdBy: Id, memberIds: seq<Id>, now: int, fate: nat -> Fate, w: World)
    ensures var w' := ServiceRuns.Apply(Request.CreateGroup(id, name, createdBy, memberIds, now, fate), w);
      var answer, t, t' := GroupAnswer(id, name, createdBy, memberIds, now, fate), w.conversations, w'.conversations;
      var isNamed := 1 <= |name| <= 100 && |memberIds| >= 2;
      && w' == w.(conversations := t')
      && (!isNamed ==> answer == Err(InvalidInput))
      && (isNamed && |memberIds| > 49 ==> answer == Err(GroupFull))
      && (isNamed && |memberIds| <= 49 && NothingFails(fate) ==> answer.Ok?)
      && (!isNamed || |memberIds| > 49 ==> t' == t)
      && (answer.Ok? ==>
            && isNamed && |memberIds| <= 49 && IsNewGroup(answer.value, name, createdBy, memberIds, id, now)
            && AddsConversation(t, t', answer.value) && t'.directConversations == t.directConversations)
  {
    if GroupRefusal(name, memberIds).None? {
      var row := NewGroup(id, name, createdBy, memberIds, now);
      NewGroupIsNew(id, name, createdBy, memberIds, now);
      AllDoneFrom(fate, 0, |CS.CreateScript(row)|);
      CS.SentIsPrefix(CS.CreateScript(row), fate, 0, w.conversations);
      CreateAdds(row, w.conversations);
      CS.CreateRun(row, w.conversations);
    }
  }
}
