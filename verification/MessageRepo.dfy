/** internal/adapter/repository/message_repo.go as a class over the two message tables. */
module MessageRepository {
  import opened Basics
  import opened Messages
  import opened MessageStore
  import opened Paging
  import opened Reactions

  datatype MessagePage = MessagePage(items: seq<MessageData>, hasMore: bool, next: Option<Cursor>)

  function SortKey(m: MessageData): Cursor {
    Cursor(m.createdAt, m.id)
  }

  function SortKeys(ms: seq<MessageData>): (ks: seq<Cursor>)
    ensures |ks| == |ms| && forall i :: 0 <= i < |ms| ==> ks[i] == SortKey(ms[i])
  {
    seq(|ms|, i requires 0 <= i < |ms| => SortKey(ms[i]))
  }

  /** The keys of a conversation's partition, with times as nanoseconds. */
  ghost function PartitionKeys(t: Tables, conversationId: Id): set<Cursor> {
    set k | k in t.messages && k.conversationId == conversationId :: Cursor(k.createdAt * NANOS_PER_MILLI, k.id)
  }

  /** The messages are rows of the conversation, as they read. */
  ghost predicate AllStored(ms: seq<MessageData>, conversationId: Id, t: Tables) {
    forall i :: 0 <= i < |ms| ==>
      KeyOf(ms[i]) in t.messages && ms[i] == Build(KeyOf(ms[i]), t.messages[KeyOf(ms[i])])
      && ms[i].conversationId == conversationId
  }

  /** A cursor sent to the store loses what is finer than a millisecond. */
  function Stored(after: Option<Cursor>): Option<Cursor> {
    if after.None? then None else Some(Cursor(Millis(after.value.createdAt) * NANOS_PER_MILLI, after.value.id))
  }

  /** The row comes after the cursor in a list shown newest first; the cursor counts in milliseconds. */
  predicate ComesAfter(k: RowKey, after: Option<Cursor>) {
    after.None? || k.createdAt < Millis(after.value.createdAt)
    || (k.createdAt == Millis(after.value.createdAt) && Less(k.id, after.value.id))
  }

  predicate IsNewer(k: RowKey, j: RowKey) {
    k.createdAt > j.createdAt || (k.createdAt == j.createdAt && Less(j.id, k.id))
  }

  /** A row of the conversation after the cursor, whatever is in it, that is not among the keys. */
  predicate IsLeft(t: Tables, c: Id, after: Option<Cursor>, keys: seq<RowKey>, k: RowKey) {
    k in t.messages && k.conversationId == c && ComesAfter(k, after) && k !in keys
  }

  /** keys are those of the rows on a page of conversation c: of the rows after the cursor the newest,
      strictly newest first, and fewer than the limit only if there are no more. */
  ghost predicate IsPageOfRows(t: Tables, c: Id, after: Option<Cursor>, limit: nat, keys: seq<RowKey>, hasMore: bool) {
    && |keys| <= limit
    && (forall i :: 0 <= i < |keys| ==>
          keys[i] in t.messages && keys[i].conversationId == c && ComesAfter(keys[i], after))
    && (forall i, j :: 0 <= i < j < |keys| ==> IsNewer(keys[i], keys[j]))
    && (forall k, i :: IsLeft(t, c, after, keys, k) && 0 <= i < |keys| ==> IsNewer(keys[i], k))
    && (hasMore <==> exists k :: IsLeft(t, c, after, keys, k))
    && (hasMore ==> |keys| == limit)
  }

  function KeysOf(ms: seq<MessageData>): (ks: seq<RowKey>)
    ensures |ks| == |ms| && forall i :: 0 <= i < |ms| ==> ks[i] == KeyOf(ms[i])
  {
    seq(|ms|, i requires 0 <= i < |ms| => KeyOf(ms[i]))
  }

  function CursorOf(k: RowKey): Cursor {
    Cursor(k.createdAt * NANOS_PER_MILLI, k.id)
  }

  lemma SameOrder(k: RowKey, j: RowKey, after: Option<Cursor>)
    ensures Older(CursorOf(j), CursorOf(k)) <==> IsNewer(k, j)
    ensures Below(CursorOf(k), Stored(after)) <==> ComesAfter(k, after)
  { }

  lemma KeyOnPage(ms: seq<MessageData>, t: Tables, c: Id, k: RowKey)
    requires AllStored(ms, c, t) && k in t.messages && k.conversationId == c
    ensures CursorOf(k) in SortKeys(ms) <==> k in KeysOf(ms)
  {
    if CursorOf(k) in SortKeys(ms) {
      var i :| 0 <= i < |ms| && SortKeys(ms)[i] == CursorOf(k);
      BuildIsNormalForm(KeyOf(ms[i]), t.messages[KeyOf(ms[i])]);
      assert KeysOf(ms)[i] == k;
    }
    if k in KeysOf(ms) {
      var i :| 0 <= i < |ms| && KeysOf(ms)[i] == k;
      BuildIsNormalForm(k, t.messages[k]);
      assert SortKeys(ms)[i] == CursorOf(k);
    }
  }

  /** The abstract page of the partition leaves out no row of the conversation. */
  lemma PageHasRows(t: Tables, c: Id, after: Option<Cursor>, limit: nat, page: MessagePage)
    requires IsPage(PartitionKeys(t, c), Stored(after), limit, SortKeys(page.items), page.hasMore, page.next)
    requires AllStored(page.items, c, t)
    ensures IsPageOfRows(t, c, after, limit, KeysOf(page.items), page.hasMore)
  {
    var ms, keys := page.items, KeysOf(page.items);
    forall i | 0 <= i < |ms|
      ensures SortKeys(ms)[i] == CursorOf(keys[i]) && keys[i] in t.messages && keys[i].conversationId == c
      ensures ComesAfter(keys[i], after)
    {
      assert AllStored(ms, c, t);
      BuildIsNormalForm(keys[i], t.messages[keys[i]]);
      assert SortKeys(ms)[i] in SortKeys(ms);
      SameOrder(keys[i], keys[i], after);
    }
    forall i, j | 0 <= i < j < |keys| ensures IsNewer(keys[i], keys[j]) { SameOrder(keys[i], keys[j], after); }
    forall k | k in t.messages && k.conversationId == c
      ensures CursorOf(k) in PartitionKeys(t, c)
      ensures Below(CursorOf(k), Stored(after)) <==> ComesAfter(k, after)
      ensures CursorOf(k) in SortKeys(ms) <==> k in keys
    {
      SameOrder(k, k, after);
      KeyOnPage(ms, t, c, k);
    }
    forall k, i | IsLeft(t, c, after, keys, k) && 0 <= i < |keys| ensures IsNewer(keys[i], k)
    {
      SameOrder(keys[i], k, after);
      assert CursorOf(k) in PartitionKeys(t, c) && CursorOf(k) !in SortKeys(ms);
    }
    if page.hasMore {
      var x :| x in PartitionKeys(t, c) && Below(x, Stored(after)) && x !in SortKeys(ms);
      var k :| k in t.messages && k.conversationId == c && x == CursorOf(k);
      assert IsLeft(t, c, after, keys, k);
    }
  }

  class MessageRepo {
    var messages: map<RowKey, Columns>
    var messagesById: map<Id, RowKey>

    function Snapshot(): Tables
      reads this
    {
      Tables(messages, messagesById)
    }

    constructor ()
      ensures Snapshot() == Tables(map[], map[])
    {
      messages, messagesById := map[], map[];
    }

    method Exec(s: Statement, fate: Fate) returns (ok: bool)
      modifies this
      ensures ok == (fate == Done)
      ensures Snapshot() == if fate == Refused then old(Snapshot()) else Execute(s, old(Snapshot()))
    {
      if fate != Refused {
        var t := Execute(s, Snapshot());
        messages, messagesById := t.messages, t.messagesById;
      }
      ok := fate == Done;
    }

    /** Row first, lookup entry second; a duplicate key is refused before anything is written. */
    method Create(msg: Message, now: int, fate1: Fate, fate2: Fate) returns (error: Option<Error>)
      modifies this, msg`createdAt
      ensures msg.createdAt == if old(msg.createdAt) == ZERO_TIME then now else old(msg.createdAt)
      ensures Snapshot() == AfterSend(KeyOf(msg.Value()), Flatten(msg.Value()), fate1, fate2, old(Snapshot()))
      ensures error == if fate1 == Done && KeyOf(msg.Value()) in old(messages) then Some(DuplicateMessage)
                       else if fate1 != Done || fate2 != Done then Some(StoreFailure) else None
      ensures error.None? ==> Findable(Snapshot(), msg.id) && KeyOf(msg.Value()) !in old(messages)
      ensures error.None? ==> Read(Snapshot(), msg.id) == Build(KeyOf(msg.Value()), Flatten(msg.Value()))
    {
      if msg.createdAt == ZERO_TIME { msg.createdAt := now; }
      var key := KeyOf(msg.Value());
      var applied := key !in messages;
      var ok := Exec(InsertRow(key, Flatten(msg.Value())), fate1);
      if !ok { return Some(StoreFailure); }
      if !applied { return Some(DuplicateMessage); }
      ok := Exec(InsertLookup(msg.id, key), fate2);
      error := if ok then None else Some(StoreFailure);
    }

    method FindById(id: Id, fate1: Fate, fate2: Fate) returns (r: Result<MessageData>)
      ensures r.Ok? <==> fate1 == Done && fate2 == Done && Findable(Snapshot(), id)
      ensures r.Ok? ==> r.value == Read(Snapshot(), id)
      ensures r.Err? ==> Some(r.error) == LookupError(Snapshot(), id, fate1, fate2)
    {
      if fate1 != Done { return Err(StoreFailure); }
      if id !in messagesById { return Err(NotFound); }
      var k := messagesById[id];
      r := FetchMessage(k.conversationId, k.createdAt, id, fate2);
    }

    /** The message has the key asked for, and storing it again would not change it. */
    method FetchMessage(conversationId: Id, createdAt: int, id: Id, fate: Fate) returns (r: Result<MessageData>)
      ensures var k := RowKey(conversationId, createdAt, id);
        && (r.Ok? <==> fate == Done && k in messages)
        && (r.Ok? ==> r.value == Build(k, messages[k]) && KeyOf(r.value) == k && Build(k, Flatten(r.value)) == r.value)
        && (r.Err? ==> r.error == if fate == Done then NotFound else StoreFailure)
    {
      if fate != Done { return Err(StoreFailure); }
      var k := RowKey(conversationId, createdAt, id);
      if k !in messages { return Err(NotFound); }
      BuildIsNormalForm(k, messages[k]);
      r := Ok(Build(k, messages[k]));
    }

    /** Every column of the row is replaced from the object in memory. */
    method Update(m: MessageData, fate: Fate) returns (error: Option<Error>)
      modifies this
      ensures Snapshot() == if fate == Refused then old(Snapshot())
                            else Execute(UpdateRow(KeyOf(m), Flatten(m)), old(Snapshot()))
      ensures error == if fate == Done then None else Some(StoreFailure)
      ensures fate != Refused ==> KeyOf(m) in messages && (PartsNamed(m) ==>
                Build(KeyOf(m), messages[KeyOf(m)]) == m.(createdAt := Millis(m.createdAt) * NANOS_PER_MILLI))
    {
      ReadBackIff(m);
      var ok := Exec(UpdateRow(KeyOf(m), Flatten(m)), fate);
      error := if ok then None else Some(StoreFailure);
    }

    /** Read, change the list in memory, write the reactions column back. A refusal and an addition
        that was there already write nothing. */
    method AddReaction(id: Id, emoji: string, user: Id, fate: nat -> Fate, first: nat) returns (error: Option<Error>)
      modifies this
      ensures error == AddError(old(Snapshot()), id, emoji, user, fate(first), fate(first + 1), fate(first + 2))
      ensures LookupError(old(Snapshot()), id, fate(first), fate(first + 1)).Some? ==> Snapshot() == old(Snapshot())
      ensures LookupError(old(Snapshot()), id, fate(first), fate(first + 1)).None? ==>
        var m := Read(old(Snapshot()), id);
        var (r, rs) := AddTo(m.reactions, emoji, user);
        Snapshot() == if r == Added.Added && fate(first + 2) != Refused
                      then Execute(UpdateReactions(KeyOf(m), rs), old(Snapshot())) else old(Snapshot())
      ensures messages.Keys == old(messages).Keys && messagesById == old(messagesById)
    {
      var r := FindById(id, fate(first), fate(first + 1));
      if r.Err? { return Some(r.error); }
      BuildIsNormalForm(messagesById[id].(id := id), messages[messagesById[id].(id := id)]);
      var msg := new Message(r.value);
      var added := msg.AddReaction(emoji, user);
      if added == LimitReached { return Some(ReactionLimitReached); }
      if added == AlreadyThere { return None; }
      var ok := Exec(UpdateReactions(KeyOf(msg.Value()), msg.reactions), fate(first + 2));
      error := if ok then None else Some(StoreFailure);
    }

    method RemoveReaction(id: Id, emoji: string, user: Id, fate: nat -> Fate, first: nat) returns (error: Option<Error>)
      modifies this
      ensures error == RemoveError(old(Snapshot()), id, emoji, user, fate(first), fate(first + 1), fate(first + 2))
      ensures LookupError(old(Snapshot()), id, fate(first), fate(first + 1)).Some? ==> Snapshot() == old(Snapshot())
      ensures LookupError(old(Snapshot()), id, fate(first), fate(first + 1)).None? ==>
        var m := Read(old(Snapshot()), id);
        var (removed, rs) := RemoveFrom(m.reactions, emoji, user);
        Snapshot() == if removed && fate(first + 2) != Refused
                      then Execute(UpdateReactions(KeyOf(m), rs), old(Snapshot())) else old(Snapshot())
      ensures messages.Keys == old(messages).Keys && messagesById == old(messagesById)
    {
      var r := FindById(id, fate(first), fate(first + 1));
      if r.Err? { return Some(r.error); }
      BuildIsNormalForm(messagesById[id].(id := id), messages[messagesById[id].(id := id)]);
      var msg := new Message(r.value);
      var removed := msg.RemoveReaction(emoji, user);
      if !removed { return None; }
      var ok := Exec(UpdateReactions(KeyOf(msg.Value()), msg.reactions), fate(first + 2));
      error := if ok then None else Some(StoreFailure);
    }

    /** The scan loop of FindByConversation: the messages of these rows of the partition. */
    method ScanRows(conversationId: Id, rows: seq<Cursor>) returns (items: seq<MessageData>)
      requires forall k :: k in rows ==> k in PartitionKeys(Snapshot(), conversationId)
      ensures SortKeys(items) == rows && AllStored(items, conversationId, Snapshot())
    {
      items := [];
      for i := 0 to |rows|
        invariant SortKeys(items) == rows[..i] && AllStored(items, conversationId, Snapshot())
      {
        assert rows[i] in rows;
        var k :| k in messages && k.conversationId == conversationId
                 && rows[i] == Cursor(k.createdAt * NANOS_PER_MILLI, k.id);
        BuildIsNormalForm(k, messages[k]);
        items := items + [Build(k, messages[k])];
        assert rows[..i + 1] == rows[..i] + [rows[i]];
      }
      assert rows[..|rows|] == rows;
    }

    /** The store returns the newest limit + 1 rows below the cursor; the extra one tells whether
        there is more. The result is the abstract page of the partition's keys. */
    method FindByConversation(conversationId: Id, after: Option<Cursor>, limit: int, fate: Fate)
      returns (r: Result<MessagePage>)
      ensures r.Ok? <==> fate == Done
      ensures r.Err? ==> r.error == StoreFailure
      ensures r.Ok? ==> IsPage(PartitionKeys(Snapshot(), conversationId), Stored(after), EffectiveLimit(limit),
                               SortKeys(r.value.items), r.value.hasMore, r.value.next)
      ensures r.Ok? ==> AllStored(r.value.items, conversationId, Snapshot())
      ensures r.Ok? ==> IsPageOfRows(Snapshot(), conversationId, after, if limit > 0 then limit else 50,
                                     KeysOf(r.value.items), r.value.hasMore)
    {
      if fate != Done { return Err(StoreFailure); }
      var count := EffectiveLimit(limit);
      var rows := NewestRows(conversationId, Stored(after), count + 1);
      var items := ScanRows(conversationId, rows);
      ExtraRowIsPage(PartitionKeys(Snapshot(), conversationId), Stored(after), count, rows);
      r := Ok(DropExtra(items, count));
      PageHasRows(Snapshot(), conversationId, after, count, r.value);
    }

    /** The clustering order and the LIMIT of the statement. */
    method NewestRows(conversationId: Id, after: Option<Cursor>, n: nat) returns (rows: seq<Cursor>)
      ensures Newest(PartitionKeys(Snapshot(), conversationId), after, n, rows)
    {
      var partition :=
        set k | k in messages && k.conversationId == conversationId :: Cursor(k.createdAt * NANOS_PER_MILLI, k.id);
      assert partition == PartitionKeys(Snapshot(), conversationId);
      rows := SelectNewest(partition, after, n);
    }
  }

  /** The page of these messages when only count of them fit. */
  function DropExtra(ms: seq<MessageData>, count: nat): (page: MessagePage)
    ensures page.items <= ms && page.hasMore == (|ms| > count)
    ensures SortKeys(page.items) == if |ms| > count then SortKeys(ms)[..count] else SortKeys(ms)
    ensures page.next == if page.hasMore && count > 0 then Some(SortKeys(ms)[count - 1]) else None
  {
    var items := if |ms| > count then ms[..count] else ms;
    MessagePage(items, |ms| > count, if |ms| > count && |items| > 0 then Some(SortKey(items[|items| - 1])) else None)
  }

  /** A cursor a page hands out reaches the store unchanged. */
  lemma PageCursorSurvives(k: RowKey, c: Columns)
    ensures Stored(Some(SortKey(Build(k, c)))) == Some(SortKey(Build(k, c)))
  {
    MillisOfMultiple(k.createdAt);
  }
}
