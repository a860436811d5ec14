/** internal/domain/conversation.go: conversation rows, the object a request works on, and the
    two constructors. */
module Conversations {
  import opened Basics
  import TextKeys

  datatype Role = Member | Admin
  // NoKind is the empty type column of a row that only a partial UPDATE ever wrote.
  datatype Kind = Direct | Group | NoKind

  datatype Participant = Participant(userId: Id, role: Role, joinedAt: int,
                                     lastReadMessageId: Id, lastReadAt: int)

  datatype LastMessage = LastMessage(messageId: Id, senderId: Id, preview: string, sentAt: int)

  /** What the conversations table holds for one id. */
  datatype Row = Row(id: Id, kind: Kind, name: string, createdBy: Id, participants: seq<Participant>,
                     lastMessage: Option<LastMessage>, onlyAdminsCanSend: bool,
                     createdAt: int, updatedAt: int)

  const MAX_GROUP_PARTICIPANTS := 50
  const MAX_CONVERSATION_NAME := 100

  function Ids(ps: seq<Participant>): (ids: seq<Id>)
    ensures |ids| == |ps|
    ensures forall i :: 0 <= i < |ps| ==> ids[i] == ps[i].userId
  {
    seq(|ps|, i requires 0 <= i < |ps| => ps[i].userId)
  }

  ghost function Members(ps: seq<Participant>): set<Id> {
    Elements(Ids(ps))
  }

  ghost predicate HasAdmin(ps: seq<Participant>, user: Id) {
    exists i :: 0 <= i < |ps| && ps[i].userId == user && ps[i].role == Admin
  }

  lemma MembersOfAppend(ps: seq<Participant>, p: Participant)
    ensures Ids(ps + [p]) == Ids(ps) + [p.userId]
    ensures Members(ps + [p]) == Members(ps) + {p.userId}
  { }

  /** The participant the service hands to the repository: no joining time is set. */
  function NewMember(user: Id): Participant {
    Participant(user, Member, 0, "", 0)
  }

  function Without(ps: seq<Participant>, user: Id): seq<Participant> {
    if ps == [] then []
    else Without(ps[..|ps| - 1], user) + (if ps[|ps| - 1].userId == user then [] else [ps[|ps| - 1]])
  }

  lemma {:induction false} WithoutMembers(ps: seq<Participant>, user: Id)
    ensures Members(Without(ps, user)) == Members(ps) - {user}
    ensures |Without(ps, user)| <= |ps|
    ensures Distinct(Ids(ps)) ==> Distinct(Ids(Without(ps, user)))
    ensures user !in Members(ps) ==> Without(ps, user) == ps
    decreases |ps|
  {
    if ps == [] {
    } else {
      var front, last := ps[..|ps| - 1], ps[|ps| - 1];
      WithoutMembers(front, user);
      MembersOfAppend(front, last);
      assert ps == front + [last];
      assert Ids(ps) == Ids(front) + [last.userId];
      if last.userId != user {
        MembersOfAppend(Without(front, user), last);
        assert Without(ps, user) == Without(front, user) + [last];
        if Distinct(Ids(ps)) { AppendKeepsDistinct(Ids(front), Ids(Without(front, user)), last.userId); }
      } else {
        assert Without(ps, user) == Without(front, user);
        assert user in Members(ps);
      }
    }
  }

  lemma AppendKeepsDistinct(s: seq<Id>, rest: seq<Id>, x: Id)
    requires Distinct(s + [x]) && Elements(rest) <= Elements(s) && (Distinct(s) ==> Distinct(rest))
    ensures Distinct(rest + [x])
  {
    assert forall i :: 0 <= i < |s| ==> (s + [x])[i] == s[i];
    assert x !in s by { assert (s + [x])[|s|] == x; }
    forall y | y in rest ensures y in s { assert y in Elements(rest); }
  }

  /** The first entry of a user, or the end of the list. */
  function FirstEntry(ps: seq<Participant>, user: Id): (i: nat)
    ensures i <= |ps|
    ensures i < |ps| ==> ps[i].userId == user
    ensures forall j :: 0 <= j < i ==> ps[j].userId != user
  {
    if ps == [] || ps[0].userId == user then 0 else 1 + FirstEntry(ps[1..], user)
  }

  /** The read position of a user is kept in the first entry only. */
  function MarkRead(ps: seq<Participant>, user: Id, messageId: Id, readAt: int): (r: seq<Participant>)
    ensures Ids(r) == Ids(ps)
  {
    var i := FirstEntry(ps, user);
    if i < |ps| then ps[i := ps[i].(lastReadMessageId := messageId, lastReadAt := readAt)] else ps
  }

  /** A loaded conversation. Each load builds a new object, so requests share no memory. */
  class Conversation {
    const id: Id
    const kind: Kind
    const onlyAdminsCanSend: bool
    var participants: seq<Participant>
    var updatedAt: int

    constructor (row: Row)
      ensures id == row.id && kind == row.kind && onlyAdminsCanSend == row.onlyAdminsCanSend
      ensures participants == row.participants && updatedAt == row.updatedAt
    {
      id, kind, onlyAdminsCanSend := row.id, row.kind, row.onlyAdminsCanSend;
      participants, updatedAt := row.participants, row.updatedAt;
    }

    method HasMember(userId: Id) returns (found: bool)
      ensures found == (userId in Members(participants))
    {
      for i := 0 to |participants|
        invariant forall j :: 0 <= j < i ==> participants[j].userId != userId
      {
        if participants[i].userId == userId {
          assert Ids(participants)[i] == userId;
          return true;
        }
      }
      found := false;
    }

    method IsAdmin(userId: Id) returns (found: bool)
      ensures found == HasAdmin(participants, userId)
    {
      for i := 0 to |participants|
        invariant forall j :: 0 <= j < i ==> !(participants[j].userId == userId && participants[j].role == Admin)
      {
        if participants[i].userId == userId && participants[i].role == Admin { return true; }
      }
      found := false;
    }

    method AddParticipant(userId: Id, now: int) returns (error: Option<Error>)
      modifies this
      ensures error == (if kind == Direct then Some(InvalidInput)
                        else if userId in Members(old(participants)) then Some(AlreadyMember)
                        else if |old(participants)| >= MAX_GROUP_PARTICIPANTS then Some(GroupFull)
                        else None)
      ensures error.Some? ==> participants == old(participants) && updatedAt == old(updatedAt)
      ensures error.None? ==> updatedAt == now
      ensures error.None? ==> participants == old(participants) + [Participant(userId, Member, now, "", 0)]
    {
      if kind == Direct { return Some(InvalidInput); }
      var found := HasMember(userId);
      if found { return Some(AlreadyMember); }
      if |participants| >= MAX_GROUP_PARTICIPANTS { return Some(GroupFull); }
      participants := participants + [Participant(userId, Member, now, "", 0)];
      updatedAt := now;
      error := None;
    }

    /** Removes the first entry of the user only; with distinct users that is all of them. */
    method RemoveParticipant(userId: Id, now: int) returns (error: Option<Error>)
      modifies this
      ensures error == (if kind == Direct then Some(InvalidInput)
                        else if userId !in Members(old(participants)) then Some(NotChatMember)
                        else None)
      ensures error.Some? ==> participants == old(participants) && updatedAt == old(updatedAt)
      ensures error.None? ==>
        var i := FirstEntry(old(participants), userId);
        && i < |old(participants)| && updatedAt == now
        && participants == old(participants)[..i] + old(participants)[i + 1..]
      ensures error.None? && Distinct(Ids(old(participants))) ==> participants == Without(old(participants), userId)
    {
      if kind == Direct { return Some(InvalidInput); }
      var i := 0;
      while i < |participants|
        invariant 0 <= i <= |participants|
        invariant participants == old(participants) && updatedAt == old(updatedAt)
        invariant userId !in Members(participants[..i])
        invariant forall j :: 0 <= j < i ==> participants[j].userId != userId
      {
        if participants[i].userId == userId {
          assert Ids(participants)[i] == userId;
          RemoveAtIsWithout(participants, i);
          assert FirstEntry(participants, userId) == i;
          participants := participants[..i] + participants[i + 1..];
          updatedAt := now;
          return None;
        }
        MembersOfAppend(participants[..i], participants[i]);
        assert participants[..i + 1] == participants[..i] + [participants[i]];
        i := i + 1;
      }
      assert participants[..i] == participants;
      error := Some(NotChatMember);
    }
  }

  lemma {:induction false} RemoveAtIsWithout(ps: seq<Participant>, i: nat)
    requires i < |ps|
    ensures Distinct(Ids(ps)) ==> ps[..i] + ps[i + 1..] == Without(ps, ps[i].userId)
    decreases |ps|
  {
    if Distinct(Ids(ps)) {
      var n := |ps| - 1;
      var front, last := ps[..n], ps[n];
      assert Ids(front) == Ids(ps)[..n];
      if i == n {
        assert last.userId !in Members(front);
        WithoutMembers(front, last.userId);
        assert ps[..i] + ps[i + 1..] == front;
      } else {
        assert Ids(ps)[i] != Ids(ps)[n];
        RemoveAtIsWithout(front, i);
        assert ps[..i] == front[..i] && ps[i + 1..] == front[i + 1..] + [last];
        assert ps[..i] + ps[i + 1..] == front[..i] + front[i + 1..] + [last];
      }
    }
  }

  /** The two participants are stored in byte order. */
  function NewDirectConversation(id: Id, userId1: Id, userId2: Id, now: int): Row {
    var p1, p2 := Participant(userId1, Member, now, "", 0), Participant(userId2, Member, now, "", 0);
    Row(id, Direct, "", userId1, if Less(userId2, userId1) then [p2, p1] else [p1, p2], None, false, now, now)
  }

  /** Whoever of the two asks, the participants come out in the same order and claim the same key. */
  lemma DirectConversationIsSymmetric(id: Id, a: Id, b: Id, now: int)
    ensures Ids(NewDirectConversation(id, a, b, now).participants) ==
            Ids(NewDirectConversation(id, b, a, now).participants)
    ensures Members(NewDirectConversation(id, a, b, now).participants) == {a, b}
    ensures var ps := NewDirectConversation(id, a, b, now).participants;
      TextKeys.DirectKey(ps[0].userId, ps[1].userId) == TextKeys.DirectKey(a, b)
  {
    LessTotal(a, b);
    if Less(a, b) && Less(b, a) {
      LessTransitive(a, b, a);
      LessIrreflexive(a);
    }
    TextKeys.DirectKeySymmetric(a, b);
    var ids := Ids(NewDirectConversation(id, a, b, now).participants);
    assert ids == [a, b] || ids == [b, a];
    assert ids[0] in Elements(ids) && ids[1] in Elements(ids);
  }

  /** The users named, each once, in order of first appearance. */
  function FirstAppearances(ids: seq<Id>): seq<Id> {
    if ids == [] then []
    else
      var before := FirstAppearances(ids[..|ids| - 1]);
      if ids[|ids| - 1] in ids[..|ids| - 1] then before else before + [ids[|ids| - 1]]
  }

  lemma {:induction false} FirstAppearancesAreASet(ids: seq<Id>)
    ensures Distinct(FirstAppearances(ids))
    ensures Elements(FirstAppearances(ids)) == Elements(ids)
    ensures |FirstAppearances(ids)| == |Elements(ids)| <= |ids|
    decreases |ids|
  {
    if ids == [] {
      assert Elements(ids) == {};
    } else {
      var front, last := ids[..|ids| - 1], ids[|ids| - 1];
      FirstAppearancesAreASet(front);
      assert ids == front + [last];
      assert Elements(ids) == Elements(front) + {last};
      if last !in front { assert last !in FirstAppearances(front) by { assert last !in Elements(front); } }
    }
  }

  /** The group made for a creator and the list sent. */
  function NewGroup(id: Id, name: string, createdBy: Id, memberIds: seq<Id>, now: int): Row {
    var ids := FirstAppearances([createdBy] + memberIds);
    Row(id, Group, name, createdBy,
        seq(|ids|, i requires 0 <= i < |ids| => Participant(ids[i], if i == 0 then Admin else Member, now, "", 0)),
        None, false, now, now)
  }

  /** What NewGroupConversation finds wrong with a request. */
  function GroupRefusal(name: string, memberIds: seq<Id>): Option<Error> {
    if name == "" || |name| > MAX_CONVERSATION_NAME || |memberIds| < 2 then Some(InvalidInput)
    else if |memberIds| + 1 > MAX_GROUP_PARTICIPANTS then Some(GroupFull)
    else None
  }

  lemma OneMoreAppearance(ids: seq<Id>, i: nat)
    requires i < |ids|
    ensures FirstAppearances(ids[..i + 1]) ==
      FirstAppearances(ids[..i]) + (if ids[i] in ids[..i] then [] else [ids[i]])
    ensures Elements(ids[..i + 1]) == Elements(ids[..i]) + {ids[i]}
  {
    assert ids[..i + 1][..i] == ids[..i];
    assert ids[..i + 1] == ids[..i] + [ids[i]];
  }

  /** A new group lists the creator first, then every other member once. The size test counts
      the list as sent, before duplicates are dropped. */
  method NewGroupConversation(id: Id, name: string, createdBy: Id, memberIds: seq<Id>, now: int)
    returns (r: Result<Row>)
    ensures r == if GroupRefusal(name, memberIds).Some? then Err(GroupRefusal(name, memberIds).value)
                 else Ok(NewGroup(id, name, createdBy, memberIds, now))
    ensures r.Ok? ==>
      var ps := r.value.participants;
      && r.value.id == id && r.value.kind == Group && r.value.createdBy == createdBy && r.value.name == name
      && Ids(ps) == FirstAppearances([createdBy] + memberIds)
      && Distinct(Ids(ps)) && 1 <= |ps| <= MAX_GROUP_PARTICIPANTS && HasAdmin(ps, createdBy)
      && (forall i :: 0 <= i < |ps| ==>
            ps[i] == Participant(ps[i].userId, if i == 0 then Admin else Member, now, "", 0))
  {
    if name == "" { return Err(InvalidInput); }
    if |name| > MAX_CONVERSATION_NAME { return Err(InvalidInput); }
    if |memberIds| < 2 { return Err(InvalidInput); }
    if |memberIds| + 1 > MAX_GROUP_PARTICIPANTS { return Err(GroupFull); }
    ghost var named := [createdBy] + memberIds;
    var participants := [Participant(createdBy, Admin, now, "", 0)];
    var seen := {createdBy};
    assert named[..1] == [createdBy];
    assert FirstAppearances([createdBy]) == [createdBy] by { assert [createdBy][..0] == []; }
    for i := 0 to |memberIds|
      invariant Ids(participants) == FirstAppearances(named[..i + 1])
      invariant seen == Elements(named[..i + 1])
      invariant |participants| >= 1 && participants[0].userId == createdBy
      invariant forall j :: 0 <= j < |participants| ==>
        participants[j] == Participant(participants[j].userId, if j == 0 then Admin else Member, now, "", 0)
    {
      OneMoreAppearance(named, i + 1);
      if memberIds[i] !in seen {
        MembersOfAppend(participants, Participant(memberIds[i], Member, now, "", 0));
        seen := seen + {memberIds[i]};
        participants := participants + [Participant(memberIds[i], Member, now, "", 0)];
      }
    }
    assert named[..|memberIds| + 1] == named;
    FirstAppearancesAreASet(named);
    assert participants == NewGroup(id, name, createdBy, memberIds, now).participants;
    r := Ok(Row(id, Group, name, createdBy, participants, None, false, now, now));
  }

  /** A group may start with fewer than three members: the list as sent decides. */
  lemma GroupOfOne(creator: Id)
    ensures FirstAppearances([creator] + [creator, creator]) == [creator]
  {
    FirstAppearancesAreASet([creator] + [creator, creator]);
    assert Elements([creator] + [creator, creator]) == {creator};
    var f := FirstAppearances([creator] + [creator, creator]);
    assert |f| == 1 && f[0] in Elements(f);
  }
}
