/** The words the laws of the service are stated in: entries of participant lists, rows and columns,
    and nothing that the service itself computes with. */
module Terms {
  import opened Basics
  import opened Conversations
  import opened Messages
  import MS = MessageStore

  ghost predicate IsListed(ps: seq<Participant>, user: Id) {
    exists p :: p in ps && p.userId == user
  }

  ghost predicate IsAdminOf(ps: seq<Participant>, user: Id) {
    exists p :: p in ps && p.userId == user && p.role == Admin
  }

  lemma ListedIsMember(ps: seq<Participant>, user: Id)
    ensures user in Members(ps) <==> IsListed(ps, user)
    ensures user in Ids(ps) <==> IsListed(ps, user)
    ensures HasAdmin(ps, user) <==> IsAdminOf(ps, user)
  {
    if user in Members(ps) {
      var i :| 0 <= i < |ps| && Ids(ps)[i] == user;
      assert ps[i] in ps;
    }
    if IsListed(ps, user) {
      var p :| p in ps && p.userId == user;
      var i :| 0 <= i < |ps| && ps[i] == p;
      assert Ids(ps)[i] == user;
    }
    if HasAdmin(ps, user) {
      var i :| 0 <= i < |ps| && ps[i].userId == user && ps[i].role == Admin;
      assert ps[i] in ps;
    }
    if IsAdminOf(ps, user) {
      var p :| p in ps && p.userId == user && p.role == Admin;
      var i :| 0 <= i < |ps| && ps[i] == p;
      assert ps[i].userId == user;
    }
  }

  /** new has the entries of other users, and those as they were, in their order. */
  ghost predicate KeepsOthers(old': seq<Participant>, new': seq<Participant>, user: Id, at: seq<nat>) {
    && |at| == |new'|
    && (forall i :: 0 <= i < |at| ==> at[i] < |old'| && new'[i] == old'[at[i]] && old'[at[i]].userId != user)
    && (forall i, j :: 0 <= i < j < |at| ==> at[i] < at[j])
    && (forall k: nat :: k < |old'| && old'[k].userId != user ==> k in at)
  }

  lemma KeepsOneMore(old': seq<Participant>, new': seq<Participant>, user: Id, at: seq<nat>, p: Participant)
    requires KeepsOthers(old', new', user, at)
    ensures if p.userId == user then KeepsOthers(old' + [p], new', user, at)
            else KeepsOthers(old' + [p], new' + [p], user, at + [|old'|])
  {
    var all := old' + [p];
    forall k: nat | k < |all| && all[k].userId != user ensures k in at || (k == |old'| && p.userId != user) {
      if k < |old'| { assert old'[k].userId != user; }
    }
    if p.userId != user { assert (at + [|old'|])[|at|] == |old'|; }
  }

  lemma {:induction false} WithoutKeepsOthers(ps: seq<Participant>, user: Id) returns (at: seq<nat>)
    ensures KeepsOthers(ps, Without(ps, user), user, at)
    decreases |ps|
  {
    if ps == [] {
      at := [];
    } else {
      var n := |ps| - 1;
      at := WithoutKeepsOthers(ps[..n], user);
      KeepsOneMore(ps[..n], Without(ps[..n], user), user, at, ps[n]);
      assert ps == ps[..n] + [ps[n]];
      if ps[n].userId != user { at := at + [n]; } else { assert Without(ps, user) == Without(ps[..n], user); }
    }
  }

  /** The first entry of the user is marked as read up to this message, and no other. */
  ghost predicate MarksFirst(old': seq<Participant>, new': seq<Participant>, user: Id, messageId: Id, at: int) {
    exists i :: 0 <= i < |old'| && old'[i].userId == user
                && (forall j :: 0 <= j < i ==> old'[j].userId != user)
                && new' == old'[i := old'[i].(lastReadMessageId := messageId, lastReadAt := at)]
  }

  lemma MarkReadMarksFirst(ps: seq<Participant>, user: Id, messageId: Id, at: int)
    requires IsListed(ps, user)
    ensures MarksFirst(ps, MarkRead(ps, user, messageId, at), user, messageId, at)
  {
    var p :| p in ps && p.userId == user;
    var k :| 0 <= k < |ps| && ps[k] == p;
    assert FirstEntry(ps, user) <= k;
    assert ps[FirstEntry(ps, user)].userId == user;
  }

  /** The key under which the lookup table has a message. */
  function KeyFor(t: MS.Tables, id: Id): RowKey
    requires id in t.messagesById
  {
    RowKey(t.messagesById[id].conversationId, t.messagesById[id].createdAt, id)
  }

  predicate IsStored(t: MS.Tables, id: Id) {
    id in t.messagesById && KeyFor(t, id) in t.messages
  }

  lemma StoredIsFindable(t: MS.Tables, id: Id)
    ensures IsStored(t, id) <==> MS.Findable(t, id)
    ensures IsStored(t, id) ==> MS.Read(t, id) == Build(KeyFor(t, id), t.messages[KeyFor(t, id)])
  { }

  /** The message is what a row of these columns shows. */
  predicate Shows(m: MessageData, k: RowKey, c: Columns) {
    && m.id == k.id && m.conversationId == k.conversationId && m.createdAt == k.createdAt * 1_000_000
    && m.senderId == c.senderId && m.kind == c.kind && m.text == c.text && m.mentions == c.mentions
    && m.reactions == c.reactions && m.edited == c.edited && m.deleted == c.deleted
    && (if c.mediaUrl == "" then m.media == None
        else m.media == Some(Media(c.mediaUrl, c.mediaThumbnailUrl, c.mediaMimeType, c.mediaFileSize,
                                   c.mediaFileName, c.mediaWidth, c.mediaHeight)))
    && (if c.replyToId == "" then m.replyTo == None
        else m.replyTo == Some(Reply(c.replyToId, c.replyToSenderId, c.replyToPreview)))
    && (if c.forwardedFromId == "" then m.forwardedFrom == None
        else m.forwardedFrom == Some(Forward(c.forwardedFromId, c.forwardedFromSenderId)))
  }

  function NoMedia(c: Columns): Columns {
    c.(mediaUrl := "", mediaThumbnailUrl := "", mediaMimeType := "", mediaFileSize := 0, mediaFileName := "",
       mediaWidth := 0, mediaHeight := 0)
  }

  /** The columns with those of a part that has no URL or id cleared. */
  function Tidy(c: Columns): Columns {
    var c1 := if c.mediaUrl == "" then NoMedia(c) else c;
    var c2 := if c.replyToId == "" then c1.(replyToSenderId := "", replyToPreview := "") else c1;
    if c.forwardedFromId == "" then c2.(forwardedFromSenderId := "") else c2
  }

  lemma BuildShows(k: RowKey, c: Columns)
    ensures Shows(Build(k, c), k, c) && KeyOf(Build(k, c)) == k
    ensures Flatten(Build(k, c)) == Tidy(c)
    ensures Shows(Build(k, c), k, Tidy(c))
  {
    MillisOfMultiple(k.createdAt);
  }

  ghost predicate NothingFails(fate: nat -> Fate) {
    forall n :: fate(n) == Done
  }
}
