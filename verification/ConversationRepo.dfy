/** internal/adapter/repository/conversation_repo.go as a class over the four tables. Each method
    sends its statements one at a time; fate(n) is what becomes of the n-th statement of the call,
    starting from number first, so the contracts cover every failure, timeout and crash point. */
module ConversationRepository {
  import opened Basics
  import opened Conversations
  import opened ConversationStore
  import opened Paging
  import TextKeys

  datatype ConversationPage = ConversationPage(items: seq<Row>, hasMore: bool, next: Option<Cursor>)

  function ActivityKey(row: Row): Cursor {
    Cursor(row.updatedAt, row.id)
  }

  function ActivityKeys(rows: seq<Row>): (ks: seq<Cursor>)
    ensures |ks| == |rows| && forall i :: 0 <= i < |rows| ==> ks[i] == ActivityKey(rows[i])
  {
    seq(|rows|, i requires 0 <= i < |rows| => ActivityKey(rows[i]))
  }

  /** A row as FindByID returns it: the id is the one asked for. */
  function Loaded(t: Tables, c: Id): Row
    requires c in t.conversations
  {
    t.conversations[c].(id := c)
  }

  /** The sort keys of the conversations listed for a user; stale index entries are skipped. */
  ghost function UserKeys(t: Tables, user: Id): set<Cursor> {
    set c | c in t.conversations && (user, c) in t.userConversations :: ActivityKey(Loaded(t, c))
  }

  /** The members of users not in known, in the order given. */
  function Minus(users: seq<Id>, known: set<Id>): seq<Id> {
    if users == [] then []
    else Minus(users[..|users| - 1], known) + (if users[|users| - 1] in known then [] else [users[|users| - 1]])
  }

  lemma {:induction false} MinusLists(users: seq<Id>, known: set<Id>)
    requires Distinct(users)
    ensures Lists(Minus(users, known), Elements(users) - known)
    decreases |users|
  {
    if users == [] {
    } else {
      var front, last := users[..|users| - 1], users[|users| - 1];
      MinusLists(front, known);
      assert users == front + [last];
      ElementsAppend(front, last);
      assert last !in Elements(front);
      assert last !in Elements(Minus(front, known));
      if last in known {
        assert Minus(users, known) == Minus(front, known);
      } else {
        ElementsAppend(Minus(front, known), last);
      }
    }
  }

  lemma {:induction false} MinusPrefix(users: seq<Id>, known: set<Id>, i: nat)
    requires i <= |users|
    ensures Minus(users[..i], known) <= Minus(users, known)
    decreases |users| - i
  {
    if i == |users| {
      assert users[..i] == users;
    } else {
      MinusPrefix(users, known, i + 1);
      assert users[..i + 1][..i] == users[..i];
    }
  }

  lemma MinusSkips(users: seq<Id>, known: set<Id>, i: nat)
    requires i < |users| && users[i] in known
    ensures Minus(users[..i + 1], known) == Minus(users[..i], known)
  {
    assert users[..i + 1][..i] == users[..i];
  }

  lemma MinusStep(users: seq<Id>, known: set<Id>, i: nat)
    requires i < |users|
    ensures users[i] in known ==> Minus(users[..i + 1], known) == Minus(users[..i], known)
    ensures users[i] !in known ==> Minus(users[..i + 1], known) == Minus(users[..i], known) + [users[i]]
    ensures Minus(users[..i + 1], known) <= Minus(users, known)
  {
    assert users[..i + 1][..i] == users[..i];
    MinusPrefix(users, known, i + 1);
  }

  lemma {:induction false} InsertIndexesPrefix(c: Id, users: seq<Id>, n: nat)
    requires n <= |users|
    ensures InsertIndexes(c, users[..n]) <= InsertIndexes(c, users)
    decreases |users| - n
  {
    if n == |users| {
      assert users[..n] == users;
    } else {
      InsertIndexesPrefix(c, users, n + 1);
      assert users[..n + 1][..n] == users[..n];
    }
  }

  /** The next two statements of a script whose earlier ones are done: either both are done and the
      call goes on, or the call has left what the whole script leaves under these fates. */
  lemma NextPair(done: seq<Statement>, pair: seq<Statement>, all: seq<Statement>,
                 fate: nat -> Fate, first: nat, t: Tables)
    requires |pair| == 2 && done + pair <= all && AllDone(fate, first, |done|)
    ensures var now := Sent(pair, fate, first + |done|, Sent(done, fate, first, t));
      && now == Sent(done + pair, fate, first, t)
      && (AllDone(fate, first + |done|, 2) <==> AllDone(fate, first, |done| + 2))
      && (!AllDone(fate, first + |done|, 2) ==> now == Sent(all, fate, first, t) && !AllDone(fate, first, |all|))
  {
    SentConcat(done, pair, fate, first, t);
    var both := done + pair;
    assert all == both + all[|both|..];
    SentConcat(both, all[|both|..], fate, first, t);
  }

  lemma InsertNext(c: Id, users: seq<Id>, i: nat, fate: nat -> Fate, first: nat, t: Tables)
    requires i < |users| && AllDone(fate, first, 2 * i)
    ensures var done, all := InsertIndexes(c, users[..i]), InsertIndexes(c, users);
      var pair := [InsertForward(users[i], c), InsertReverse(c, users[i])];
      var now := Sent(pair, fate, first + 2 * i, Sent(done, fate, first, t));
      if AllDone(fate, first + 2 * i, 2)
      then now == Sent(InsertIndexes(c, users[..i + 1]), fate, first, t) && AllDone(fate, first, 2 * (i + 1))
      else now == Sent(all, fate, first, t) && !AllDone(fate, first, |all|)
  {
    var pair := [InsertForward(users[i], c), InsertReverse(c, users[i])];
    assert users[..i + 1][..i] == users[..i];
    assert InsertIndexes(c, users[..i + 1]) == InsertIndexes(c, users[..i]) + pair;
    InsertIndexesPrefix(c, users, i + 1);
    NextPair(InsertIndexes(c, users[..i]), pair, InsertIndexes(c, users), fate, first, t);
  }

  ghost predicate KeyTaken(row: Row, t: Tables) {
    Claims(row) && RowKey(row) in t.directConversations
  }

  /** A refused claim changes nothing and ends the call. */
  ghost function AfterCreate(row: Row, fate: nat -> Fate, first: nat, t: Tables): Tables {
    if KeyTaken(row, t) then t else Sent(CreateScript(row), fate, first, t)
  }

  lemma AddInThree(c: Id, ps: seq<Participant>, p: Participant, now: int)
    ensures AddScript(c, ps, p, now) ==
      [WriteParticipants(c, ps + [p], Some(now))] + [InsertForward(p.userId, c), InsertReverse(c, p.userId)]
  {
    assert [p.userId][..0] == [];
  }

  lemma RemoveInThree(c: Id, ps: seq<Participant>, user: Id, now: int)
    ensures RemoveScript(c, ps, user, now) ==
      [WriteParticipants(c, Without(ps, user), Some(now))] + [DeleteForward(user, c), DeleteReverse(c, user)]
  {
    assert [user][..0] == [];
  }

  lemma InsertMissingPair(c: Id, order: seq<Id>, known: set<Id>, i: nat)
    requires i < |order| && order[i] !in known
    ensures var done, next := Minus(order[..i], known), Minus(order[..i + 1], known);
      && |next| == |done| + 1
      && InsertIndexes(c, next) == InsertIndexes(c, done) + [InsertForward(order[i], c), InsertReverse(c, order[i])]
      && InsertIndexes(c, next) <= InsertIndexes(c, Minus(order, known))
  {
    var done, next, all := Minus(order[..i], known), Minus(order[..i + 1], known), Minus(order, known);
    MinusStep(order, known, i);
    assert next[..|next| - 1] == done;
    InsertIndexesPrefix(c, all, |next|);
    assert all[..|next|] == next;
  }

  /** The same for the first loop of Update, which skips the users already known. */
  lemma InsertMissingNext(c: Id, order: seq<Id>, known: set<Id>, i: nat, fate: nat -> Fate, first: nat, t: Tables)
    requires i < |order| && order[i] !in known && AllDone(fate, first, 2 * |Minus(order[..i], known)|)
    ensures var done, next := Minus(order[..i], known), Minus(order[..i + 1], known);
      var all := InsertIndexes(c, Minus(order, known));
      var pair := [InsertForward(order[i], c), InsertReverse(c, order[i])];
      var now := Sent(pair, fate, first + 2 * |done|, Sent(InsertIndexes(c, done), fate, first, t));
      && |next| == |done| + 1
      && if AllDone(fate, first + 2 * |done|, 2)
         then now == Sent(InsertIndexes(c, next), fate, first, t) && AllDone(fate, first, 2 * |next|)
         else now == Sent(all, fate, first, t) && !AllDone(fate, first, |all|)
  {
    var done, all := Minus(order[..i], known), Minus(order, known);
    InsertMissingPair(c, order, known, i);
    var pair := [InsertForward(order[i], c), InsertReverse(c, order[i])];
    NextPair(InsertIndexes(c, done), pair, InsertIndexes(c, all), fate, first, t);
  }

  lemma {:induction false} DeleteIndexesPrefix(c: Id, users: seq<Id>, n: nat)
    requires n <= |users|
    ensures DeleteIndexes(c, users[..n]) <= DeleteIndexes(c, users)
    decreases |users| - n
  {
    if n == |users| {
      assert users[..n] == users;
    } else {
      DeleteIndexesPrefix(c, users, n + 1);
      assert users[..n + 1][..n] == users[..n];
    }
  }

  lemma DeleteSurplusPair(c: Id, order: seq<Id>, known: set<Id>, i: nat)
    requires i < |order| && order[i] !in known
    ensures var done, next := Minus(order[..i], known), Minus(order[..i + 1], known);
      && |next| == |done| + 1
      && DeleteIndexes(c, next) == DeleteIndexes(c, done) + [DeleteForward(order[i], c), DeleteReverse(c, order[i])]
      && DeleteIndexes(c, next) <= DeleteIndexes(c, Minus(order, known))
  {
    var done, next, all := Minus(order[..i], known), Minus(order[..i + 1], known), Minus(order, known);
    MinusStep(order, known, i);
    assert next[..|next| - 1] == done;
    DeleteIndexesPrefix(c, all, |next|);
    assert all[..|next|] == next;
  }

  /** The same for the second loop of Update, which skips the users already known. */
  lemma DeleteSurplusNext(c: Id, order: seq<Id>, known: set<Id>, i: nat, fate: nat -> Fate, first: nat, t: Tables)
    requires i < |order| && order[i] !in known && AllDone(fate, first, 2 * |Minus(order[..i], known)|)
    ensures var done, next := Minus(order[..i], known), Minus(order[..i + 1], known);
      var all := DeleteIndexes(c, Minus(order, known));
      var pair := [DeleteForward(order[i], c), DeleteReverse(c, order[i])];
      var now := Sent(pair, fate, first + 2 * |done|, Sent(DeleteIndexes(c, done), fate, first, t));
      && |next| == |done| + 1
      && if AllDone(fate, first + 2 * |done|, 2)
         then now == Sent(DeleteIndexes(c, next), fate, first, t) && AllDone(fate, first, 2 * |next|)
         else now == Sent(all, fate, first, t) && !AllDone(fate, first, |all|)
  {
    var done, all := Minus(order[..i], known), Minus(order, known);
    DeleteSurplusPair(c, order, known, i);
    var pair := [DeleteForward(order[i], c), DeleteReverse(c, order[i])];
    NextPair(DeleteIndexes(c, done), pair, DeleteIndexes(c, all), fate, first, t);
  }

  lemma OrdersMakeAttempt(row: Row, newOrder: seq<Id>, oldOrder: seq<Id>, t: Tables)
    requires Lists(newOrder, Members(row.participants)) && Lists(oldOrder, Indexed(t, row.id))
    ensures var added, removed := Minus(newOrder, Indexed(t, row.id)), Minus(oldOrder, Members(row.participants));
      && AfterAttempt(Attempt(added, removed, 0), row, t) == t
      && forall cut: nat :: cut <= |UpdateScript(row, added, removed)| ==>
           IsAttempt(Attempt(added, removed, cut), row, t)
  {
    MinusLists(newOrder, Indexed(t, row.id));
    MinusLists(oldOrder, Members(row.participants));
    var script := UpdateScript(row, Minus(newOrder, Indexed(t, row.id)), Minus(oldOrder, Members(row.participants)));
    assert script[..0] == [];
  }

  ghost function ListOf(s: set<Id>): (order: seq<Id>)
    ensures Lists(order, s)
  {
    if s == {} then []
    else
      var x :| x in s;
      var rest := ListOf(s - {x});
      assert x !in Elements(rest);
      ElementsAppend(rest, x);
      rest + [x]
  }

  /** The order in which a map or a partition is ranged over: any order. */
  method Range(s: set<Id>) returns (order: seq<Id>)
    ensures Lists(order, s)
  {
    order := [];
    var rest := s;
    while rest != {}
      invariant rest <= s && Distinct(order) && Elements(order) == s - rest
      decreases |rest|
    {
      var x :| x in rest;
      assert x !in Elements(order);
      ElementsAppend(order, x);
      order := order + [x];
      rest := rest - {x};
    }
  }

  method UserSet(ps: seq<Participant>) returns (users: set<Id>)
    ensures users == Members(ps)
  {
    users := {};
    for i := 0 to |ps|
      invariant users == Members(ps[..i])
    {
      MembersOfAppend(ps[..i], ps[i]);
      assert ps[..i + 1] == ps[..i] + [ps[i]];
      users := users + {ps[i].userId};
    }
    assert ps[..|ps|] == ps;
  }

  /** The user has the conversation in the index, it has a row, and that comes after the cursor in a list
      shown with the latest activity first. */
  predicate IsListedAfter(t: Tables, user: Id, after: Option<Cursor>, c: Id) {
    && (user, c) in t.userConversations && c in t.conversations
    && (after.None? || t.conversations[c].updatedAt < after.value.createdAt
        || (t.conversations[c].updatedAt == after.value.createdAt && Less(c, after.value.id)))
  }

  predicate IsMoreRecent(t: Tables, c: Id, d: Id)
    requires c in t.conversations && d in t.conversations
  {
    t.conversations[c].updatedAt > t.conversations[d].updatedAt
    || (t.conversations[c].updatedAt == t.conversations[d].updatedAt && Less(d, c))
  }

  function RowIds(rows: seq<Row>): (ids: seq<Id>)
    ensures |ids| == |rows| && forall i :: 0 <= i < |rows| ==> ids[i] == rows[i].id
  {
    seq(|rows|, i requires 0 <= i < |rows| => rows[i].id)
  }

  predicate IsUnlisted(t: Tables, user: Id, after: Option<Cursor>, ids: seq<Id>, c: Id) {
    IsListedAfter(t, user, after, c) && c !in ids
  }

  /** The rows on a page of the user's conversations: of those after the cursor the most recent, strictly
      in that order and whole, and fewer than the limit only if there are no more. */
  ghost predicate IsPageOfUser(t: Tables, user: Id, after: Option<Cursor>, limit: nat, rows: seq<Row>, hasMore: bool) {
    && |rows| <= limit
    && (forall i :: 0 <= i < |rows| ==>
          IsListedAfter(t, user, after, rows[i].id) && rows[i] == t.conversations[rows[i].id].(id := rows[i].id))
    && (forall i, j :: 0 <= i < j < |rows| ==> IsMoreRecent(t, rows[i].id, rows[j].id))
    && (forall c, i :: IsUnlisted(t, user, after, RowIds(rows), c) && 0 <= i < |rows| ==>
          IsMoreRecent(t, rows[i].id, c))
    && (hasMore <==> exists c :: IsUnlisted(t, user, after, RowIds(rows), c))
    && (hasMore ==> |rows| == limit)
  }

  lemma KeyOfRow(t: Tables, rows: seq<Row>, c: Id)
    requires AllLoaded(rows, t) && c in t.conversations
    ensures ActivityKey(Loaded(t, c)) in ActivityKeys(rows) <==> c in RowIds(rows)
  {
    if ActivityKey(Loaded(t, c)) in ActivityKeys(rows) {
      var i :| 0 <= i < |rows| && ActivityKeys(rows)[i] == ActivityKey(Loaded(t, c));
      assert RowIds(rows)[i] == c;
    }
    if c in RowIds(rows) {
      var i :| 0 <= i < |rows| && RowIds(rows)[i] == c;
      assert ActivityKeys(rows)[i] == ActivityKey(Loaded(t, c));
    }
  }

  /** The abstract page of the user's keys leaves out no conversation. */
  lemma PageHasConversations(t: Tables, user: Id, after: Option<Cursor>, limit: nat, page: ConversationPage)
    requires IsPage(UserKeys(t, user), after, limit, ActivityKeys(page.items), page.hasMore, page.next)
    requires AllLoaded(page.items, t)
    ensures IsPageOfUser(t, user, after, limit, page.items, page.hasMore)
  {
    var rows, keys := page.items, ActivityKeys(page.items);
    forall i | 0 <= i < |rows| ensures IsListedAfter(t, user, after, rows[i].id) {
      assert keys[i] in keys;
      var c :| c in t.conversations && (user, c) in t.userConversations && keys[i] == ActivityKey(Loaded(t, c));
    }
    forall i, j | 0 <= i < j < |rows| ensures IsMoreRecent(t, rows[i].id, rows[j].id) {
      assert Older(keys[j], keys[i]);
    }
    forall c | IsUnlisted(t, user, after, RowIds(rows), c)
      ensures ActivityKey(Loaded(t, c)) in UserKeys(t, user) && Below(ActivityKey(Loaded(t, c)), after)
      ensures ActivityKey(Loaded(t, c)) !in keys
    {
      KeyOfRow(t, rows, c);
    }
    forall c, i | IsUnlisted(t, user, after, RowIds(rows), c) && 0 <= i < |rows|
      ensures IsMoreRecent(t, rows[i].id, c)
    {
      assert Older(ActivityKey(Loaded(t, c)), keys[i]);
    }
    if page.hasMore {
      var x :| x in UserKeys(t, user) && Below(x, after) && x !in keys;
      var c :| c in t.conversations && (user, c) in t.userConversations && x == ActivityKey(Loaded(t, c));
      KeyOfRow(t, rows, c);
      assert IsUnlisted(t, user, after, RowIds(rows), c);
    }
  }

  class ConversationRepo {
    var conversations: map<Id, Row>
    var userConversations: set<(Id, Id)>
    var conversationParticipants: set<(Id, Id)>
    var directConversations: map<string, Id>

    function Snapshot(): Tables
      reads this
    {
      Tables(conversations, userConversations, conversationParticipants, directConversations)
    }

    constructor ()
      ensures Snapshot() == EMPTY
    {
      conversations, userConversations, conversationParticipants, directConversations := map[], {}, {}, map[];
    }

    /** One statement reaches the store, or does not. */
    method Exec(s: Statement, fate: Fate) returns (ok: bool)
      modifies this
      ensures ok == (fate == Done)
      ensures Snapshot() == if fate == Refused then old(Snapshot()) else Execute(s, old(Snapshot()))
    {
      if fate != Refused {
        var t := Execute(s, Snapshot());
        conversations, userConversations := t.conversations, t.userConversations;
        conversationParticipants, directConversations := t.conversationParticipants, t.directConversations;
      }
      ok := fate == Done;
    }

    method InsertParticipantIndexes(c: Id, user: Id, fate: nat -> Fate, first: nat) returns (ok: bool)
      modifies this
      ensures Snapshot() == Sent([InsertForward(user, c), InsertReverse(c, user)], fate, first, old(Snapshot()))
      ensures ok == AllDone(fate, first, 2)
    {
      SentTwo(InsertForward(user, c), InsertReverse(c, user), fate, first, Snapshot());
      ok := Exec(InsertForward(user, c), fate(first));
      if !ok { return; }
      ok := Exec(InsertReverse(c, user), fate(first + 1));
    }

    method DeleteParticipantIndexes(c: Id, user: Id, fate: nat -> Fate, first: nat) returns (ok: bool)
      modifies this
      ensures Snapshot() == Sent([DeleteForward(user, c), DeleteReverse(c, user)], fate, first, old(Snapshot()))
      ensures ok == AllDone(fate, first, 2)
    {
      SentTwo(DeleteForward(user, c), DeleteReverse(c, user), fate, first, Snapshot());
      ok := Exec(DeleteForward(user, c), fate(first));
      if !ok { return; }
      ok := Exec(DeleteReverse(c, user), fate(first + 1));
    }

    /** getParticipantIDs scans the partition of c in the reverse index. */
    method GetParticipantIds(c: Id, fate: Fate) returns (r: Result<set<Id>>)
      ensures r.Ok? <==> fate == Done
      ensures r.Ok? ==> forall u :: u in r.value <==> (c, u) in conversationParticipants
      ensures r.Err? ==> r.error == StoreFailure
    {
      var partition := set e | e in conversationParticipants && e.0 == c;
      var users, rest := {}, partition;
      while rest != {}
        invariant rest <= partition
        invariant forall u :: u in users <==> (c, u) in partition - rest
        decreases |rest|
      {
        var e :| e in rest;
        users := users + {e.1};
        rest := rest - {e};
      }
      if fate != Done { return Err(StoreFailure); }
      r := Ok(users);
    }

    /** What is returned is the row under the id asked for; only an absent row is not found. */
    method FindById(c: Id, fate: Fate) returns (r: Result<Row>)
      ensures r.Ok? <==> fate == Done && c in conversations
      ensures r.Ok? ==> r.value == Loaded(Snapshot(), c) == conversations[c].(id := c)
      ensures r.Err? ==> r.error == if fate == Done then NotFound else StoreFailure
    {
      if fate != Done { return Err(StoreFailure); }
      if c !in conversations { return Err(NotFound); }
      r := Ok(conversations[c].(id := c));
    }

    /** A claimed key whose row is missing is reported as not found. */
    method FindDirectChat(user1: Id, user2: Id, fate: nat -> Fate, first: nat) returns (r: Result<Row>)
      ensures var key := TextKeys.DirectKey(user1, user2);
        r == if fate(first) != Done then Err(StoreFailure)
             else if key !in directConversations then Err(NotFound)
             else if fate(first + 1) != Done then Err(StoreFailure)
             else if directConversations[key] !in conversations then Err(NotFound)
             else Ok(Loaded(Snapshot(), directConversations[key]))
    {
      var key := TextKeys.DirectKey(user1, user2);
      if fate(first) != Done { return Err(StoreFailure); }
      if key !in directConversations { return Err(NotFound); }
      r := FindById(directConversations[key], fate(first + 1));
    }

    /** A taken key is refused before anything is written. Otherwise the statements go out one by one
        until one fails. */
    method Create(row: Row, fate: nat -> Fate, first: nat) returns (error: Option<Error>)
      modifies this
      ensures Snapshot() == AfterCreate(row, fate, first, old(Snapshot()))
      ensures error == if KeyTaken(row, old(Snapshot())) && fate(first) == Done then Some(DuplicateConversation)
                       else if !KeyTaken(row, old(Snapshot())) && AllDone(fate, first, |CreateScript(row)|) then None
                       else Some(StoreFailure)
    {
      ghost var ins := InsertIndexes(row.id, Ids(row.participants));
      ghost var rest := [WriteRow(row)] + ins;
      var n := 0;
      if Claims(row) {
        var key := RowKey(row);
        assert CreateScript(row) == [ClaimKey(key, row.id)] + rest;
        SentCons(ClaimKey(key, row.id), rest, fate, first, Snapshot());
        var applied := key !in directConversations;
        var claimed := Exec(ClaimKey(key, row.id), fate(first));
        if !claimed { return Some(StoreFailure); }
        if !applied { return Some(DuplicateConversation); }
        n := 1;
      } else {
        assert CreateScript(row) == rest;
      }
      SentCons(WriteRow(row), ins, fate, first + n, Snapshot());
      var ok := Exec(WriteRow(row), fate(first + n));
      if !ok { return Some(StoreFailure); }
      ok := InsertAll(row.id, Ids(row.participants), fate, first + n + 1);
      error := if ok then None else Some(StoreFailure);
    }

    /** The loop of Create over the participants. */
    method InsertAll(c: Id, users: seq<Id>, fate: nat -> Fate, first: nat) returns (ok: bool)
      modifies this
      ensures Snapshot() == Sent(InsertIndexes(c, users), fate, first, old(Snapshot()))
      ensures ok == AllDone(fate, first, 2 * |users|)
    {
      ghost var t := Snapshot();
      for i := 0 to |users|
        invariant Snapshot() == Sent(InsertIndexes(c, users[..i]), fate, first, t)
        invariant AllDone(fate, first, 2 * i)
      {
        ok := InsertParticipantIndexes(c, users[i], fate, first + 2 * i);
        InsertNext(c, users, i, fate, first, t);
        if !ok { return; }
      }
      assert users[..|users|] == users;
      ok := true;
    }

    /** The first loop of Update: users of the new set that the reverse index does not have. */
    method InsertMissing(c: Id, order: seq<Id>, known: set<Id>, fate: nat -> Fate, first: nat)
      returns (ok: bool, next: nat)
      modifies this
      ensures Snapshot() == Sent(InsertIndexes(c, Minus(order, known)), fate, first, old(Snapshot()))
      ensures ok == AllDone(fate, first, 2 * |Minus(order, known)|)
      ensures ok ==> next == first + 2 * |Minus(order, known)|
    {
      ghost var t := Snapshot();
      next := first;
      for i := 0 to |order|
        invariant Snapshot() == Sent(InsertIndexes(c, Minus(order[..i], known)), fate, first, t)
        invariant next == first + 2 * |Minus(order[..i], known)| && AllDone(fate, first, 2 * |Minus(order[..i], known)|)
      {
        if order[i] in known {
          MinusSkips(order, known, i);
        } else {
          ok := InsertParticipantIndexes(c, order[i], fate, next);
          InsertMissingNext(c, order, known, i, fate, first, t);
          if !ok { return; }
          next := next + 2;
        }
      }
      assert order[..|order|] == order;
      ok := true;
    }

    /** The second loop of Update: users of the reverse index that the new set does not have. */
    method DeleteSurplus(c: Id, order: seq<Id>, known: set<Id>, fate: nat -> Fate, first: nat) returns (ok: bool)
      modifies this
      ensures Snapshot() == Sent(DeleteIndexes(c, Minus(order, known)), fate, first, old(Snapshot()))
      ensures ok == AllDone(fate, first, 2 * |Minus(order, known)|)
    {
      ghost var t := Snapshot();
      var next := first;
      for i := 0 to |order|
        invariant Snapshot() == Sent(DeleteIndexes(c, Minus(order[..i], known)), fate, first, t)
        invariant next == first + 2 * |Minus(order[..i], known)| && AllDone(fate, first, 2 * |Minus(order[..i], known)|)
      {
        if order[i] in known {
          MinusSkips(order, known, i);
        } else {
          ok := DeleteParticipantIndexes(c, order[i], fate, next);
          DeleteSurplusNext(c, order, known, i, fate, first, t);
          if !ok { return; }
          next := next + 2;
        }
      }
      assert order[..|order|] == order;
      ok := true;
    }

    /** Update after the reverse index was read: the row, then the two loops. */
    method Replace(row: Row, newOrder: seq<Id>, newSet: set<Id>, oldOrder: seq<Id>, oldSet: set<Id>,
                   fate: nat -> Fate, first: nat) returns (ok: bool)
      modifies this
      ensures var script := UpdateScript(row, Minus(newOrder, oldSet), Minus(oldOrder, newSet));
        && Snapshot() == Sent(script, fate, first, old(Snapshot()))
        && ok == AllDone(fate, first, |script|)
    {
      ghost var ins := InsertIndexes(row.id, Minus(newOrder, oldSet));
      ghost var del := DeleteIndexes(row.id, Minus(oldOrder, newSet));
      ghost var t := Snapshot();
      assert [WriteRow(row)] + ins + del == [WriteRow(row)] + (ins + del);
      SentCons(WriteRow(row), ins + del, fate, first, t);
      SentConcat(ins, del, fate, first + 1, Execute(WriteRow(row), t));
      ok := Exec(WriteRow(row), fate(first));
      if !ok { return; }
      var next;
      ok, next := InsertMissing(row.id, newOrder, oldSet, fate, first + 1);
      if !ok { return; }
      ok := DeleteSurplus(row.id, oldOrder, newSet, fate, next);
    }

    /** Update is one attempt at its script: the reverse index is read first, then the row is
        replaced, missing users are inserted and surplus users deleted, in any order of the maps. */
    method Update(row: Row, fate: nat -> Fate, first: nat) returns (error: Option<Error>, ghost a: Attempt)
      modifies this
      ensures IsAttempt(a, row, old(Snapshot()))
      ensures Snapshot() == AfterAttempt(a, row, old(Snapshot()))
      ensures a.cut == if fate(first) != Done then 0
                       else TookEffect(fate, first + 1, |UpdateScript(row, a.added, a.removed)|)
      ensures error == if fate(first) == Done && AllDone(fate, first + 1, |UpdateScript(row, a.added, a.removed)|)
                       then None else Some(StoreFailure)
      ensures error.None? ==> Finished(a, row)
    {
      ghost var t := Snapshot();
      var newSet := UserSet(row.participants);
      var found := GetParticipantIds(row.id, fate(first));
      var oldSet := if found.Ok? then found.value else {};
      var newOrder := Range(newSet);
      var oldOrder := Range(oldSet);
      ghost var indexed, listed := Indexed(t, row.id), oldOrder;
      if found.Err? { listed := ListOf(indexed); }
      assert found.Ok? ==> oldSet == indexed;
      OrdersMakeAttempt(row, newOrder, listed, t);
      a := Attempt(Minus(newOrder, indexed), Minus(listed, newSet), 0);
      if found.Err? { return Some(StoreFailure), a; }
      ghost var script := UpdateScript(row, a.added, a.removed);
      SentIsPrefix(script, fate, first + 1, t);
      AllTookEffect(fate, first + 1, |script|);
      a := a.(cut := TookEffect(fate, first + 1, |script|));
      var ok := Replace(row, newOrder, newSet, oldOrder, oldSet, fate, first + 1);
      error := if ok then None else Some(StoreFailure);
    }

    /** Only the last message and the activity time change, and no agreement with the indexes; an
        absent conversation comes into being without participants. */
    method UpdateLastMessage(c: Id, m: LastMessage, fate: Fate) returns (error: Option<Error>)
      modifies this
      ensures Snapshot() == if fate == Refused then old(Snapshot())
                            else Execute(WriteLastMessage(c, m), old(Snapshot()))
      ensures fate != Refused && c in old(conversations) ==>
        && c in conversations
        && Ids(conversations[c].participants) == Ids(old(conversations)[c].participants)
        && Loaded(Snapshot(), c).(lastMessage := None, updatedAt := 0) ==
           Loaded(old(Snapshot()), c).(lastMessage := None, updatedAt := 0)
        && conversations[c].lastMessage == Some(m) && conversations[c].updatedAt == m.sentAt
      ensures forall d, u :: AgreesOn(Snapshot(), d, u) <==> AgreesOn(old(Snapshot()), d, u)
      ensures error == if fate == Done then None else Some(StoreFailure)
    {
      var ok := Exec(WriteLastMessage(c, m), fate);
      assert Members([]) == {};
      error := if ok then None else Some(StoreFailure);
    }

    /** Only the first entry of the user is marked; nothing is written for a non-member. */
    method UpdateReadCursor(c: Id, user: Id, messageId: Id, readAt: int, fate: nat -> Fate, first: nat)
      returns (error: Option<Error>)
      modifies this
      ensures Snapshot() == if fate(first) == Done && fate(first + 1) != Refused
                            then AfterOperation(Operation.UpdateReadCursor(c, user, messageId, readAt), old(Snapshot()))
                            else old(Snapshot())
      ensures var listed := c in old(conversations) && user in Members(old(conversations)[c].participants);
        error == if fate(first) != Done then Some(StoreFailure)
                 else if !listed then Some(NotFound)
                 else if fate(first + 1) != Done then Some(StoreFailure) else None
      ensures conversations.Keys == old(conversations).Keys
    {
      var r := FindById(c, fate(first));
      if r.Err? { return Some(r.error); }
      ghost var t := Snapshot();
      var found, ps := MarkFirst(r.value.participants, user, messageId, readAt);
      if !found { return Some(NotFound); }
      ReadCursorWrite(c, user, messageId, readAt, t);
      var ok := Exec(WriteParticipants(c, ps, None), fate(first + 1));
      error := if ok then None else Some(StoreFailure);
    }

    /** The blob is read, extended and written back, then the indexes are inserted. The repository
        itself does not check for duplicates or for a full group. */
    method AddParticipant(c: Id, p: Participant, now: int, fate: nat -> Fate, first: nat) returns (error: Option<Error>)
      modifies this
      ensures Snapshot() == if fate(first) == Done
                            then AfterAdd(c, p, now, TookEffect(fate, first + 1, 3), old(Snapshot()))
                            else old(Snapshot())
      ensures error == if fate(first) != Done then Some(StoreFailure)
                       else if c !in old(conversations) then Some(NotFound)
                       else if AllDone(fate, first + 1, 3) then None else Some(StoreFailure)
    {
      var r := FindById(c, fate(first));
      if r.Err? { return Some(r.error); }
      var ps, u := r.value.participants, p.userId;
      AddInThree(c, ps, p, now);
      SentIsPrefix(AddScript(c, ps, p, now), fate, first + 1, Snapshot());
      var ok := Exec(WriteParticipants(c, ps + [p], Some(now)), fate(first + 1));
      if !ok { return Some(StoreFailure); }
      ok := InsertParticipantIndexes(c, u, fate, first + 2);
      error := if ok then None else Some(StoreFailure);
    }

    method RemoveParticipant(c: Id, user: Id, now: int, fate: nat -> Fate, first: nat) returns (error: Option<Error>)
      modifies this
      ensures Snapshot() == if fate(first) == Done
                            then AfterRemoval(Removal(now, TookEffect(fate, first + 1, 3)), c, user, old(Snapshot()))
                            else old(Snapshot())
      ensures error == if fate(first) != Done then Some(StoreFailure)
                       else if c !in old(conversations) then Some(NotFound)
                       else if AllDone(fate, first + 1, 3) then None else Some(StoreFailure)
    {
      var r := FindById(c, fate(first));
      if r.Err? { return Some(r.error); }
      var filtered := FilterOut(r.value.participants, user);
      RemoveInThree(c, r.value.participants, user, now);
      SentIsPrefix(RemoveScript(c, r.value.participants, user, now), fate, first + 1, Snapshot());
      var ok := Exec(WriteParticipants(c, filtered, Some(now)), fate(first + 1));
      if !ok { return Some(StoreFailure); }
      ok := DeleteParticipantIndexes(c, user, fate, first + 2);
      error := if ok then None else Some(StoreFailure);
    }

    /** The conversations listed for a user, in the order the index partition is read. Index entries
        without a row are skipped; any failed read ends the call. */
    method ListConversations(user: Id, fate: nat -> Fate, first: nat) returns (r: Result<seq<Row>>)
      ensures r.Ok? <==> AllDone(fate, first, 1 + |Listed(Snapshot(), user)|)
      ensures r.Err? ==> r.error == StoreFailure
      ensures r.Ok? ==> IdsDiffer(r.value) && AllLoaded(r.value, Snapshot())
                        && Elements(ActivityKeys(r.value)) == UserKeys(Snapshot(), user)
    {
      if fate(first) != Done { return Err(StoreFailure); }
      var index := set e | e in userConversations && e.0 == user :: e.1;
      assert index == Listed(Snapshot(), user);
      var listed := Range(index);
      DistinctSize(listed);
      assert KeysAmong(Snapshot(), index) == UserKeys(Snapshot(), user);
      r := LoadRows(listed, fate, first + 1);
    }

    method LoadRows(listed: seq<Id>, fate: nat -> Fate, first: nat) returns (r: Result<seq<Row>>)
      requires Distinct(listed)
      ensures r.Ok? <==> AllDone(fate, first, |listed|)
      ensures r.Err? ==> r.error == StoreFailure
      ensures r.Ok? ==> IsListing(r.value, listed, Snapshot())
    {
      ghost var t := Snapshot();
      var convs: seq<Row> := [];
      for i := 0 to |listed|
        invariant AllDone(fate, first, i)
        invariant IsListing(convs, listed[..i], t)
      {
        var found := FindById(listed[i], fate(first + i));
        OneMoreDone(fate, first, i, |listed|);
        if found.Err? && found.error != NotFound { return Err(StoreFailure); }
        ListOneMore(convs, listed, i, t);
        if found.Ok? { convs := convs + [found.value]; }
      }
      assert listed[..|listed|] == listed;
      r := Ok(convs);
    }

    /** Collect the user's conversations, sort them newest first, find the first one below the
        cursor, cut the page out. The result is the abstract page of the user's keys. */
    method FindByUser(user: Id, after: Option<Cursor>, limit: int, fate: nat -> Fate, first: nat)
      returns (r: Result<ConversationPage>)
      ensures r.Ok? <==> AllDone(fate, first, 1 + |Listed(Snapshot(), user)|)
      ensures r.Err? ==> r.error == StoreFailure
      ensures r.Ok? ==> IsPage(UserKeys(Snapshot(), user), after, EffectiveLimit(limit),
                               ActivityKeys(r.value.items), r.value.hasMore, r.value.next)
      ensures r.Ok? ==> AllLoaded(r.value.items, Snapshot())
      ensures r.Ok? ==> IsPageOfUser(Snapshot(), user, after, if limit > 0 then limit else 50,
                                     r.value.items, r.value.hasMore)
    {
      var listing := ListConversations(user, fate, first);
      if listing.Err? { return Err(listing.error); }
      var convs := listing.value;
      if |convs| == 0 {
        assert ActivityKeys(convs) == [] && UserKeys(Snapshot(), user) == {};
        PageHasConversations(Snapshot(), user, after, EffectiveLimit(limit), ConversationPage([], false, None));
        return Ok(ConversationPage([], false, None));
      }
      ghost var t := Snapshot();
      convs := SortByActivity(convs, t);
      var page := CutPage(convs, after, EffectiveLimit(limit));
      PageHasConversations(t, user, after, EffectiveLimit(limit), page);
      r := Ok(page);
    }
  }

  /** The loop of RemoveParticipant. */
  method FilterOut(ps: seq<Participant>, user: Id) returns (filtered: seq<Participant>)
    ensures filtered == Without(ps, user)
  {
    filtered := [];
    for i := 0 to |ps|
      invariant filtered == Without(ps[..i], user)
    {
      assert ps[..i + 1][..i] == ps[..i];
      if ps[i].userId != user { filtered := filtered + [ps[i]]; }
    }
    assert ps[..|ps|] == ps;
  }

  /** The conversations the forward index has for a user. */
  ghost function Listed(t: Tables, user: Id): set<Id> {
    set e | e in t.userConversations && e.0 == user :: e.1
  }

  ghost predicate IdsDiffer(rows: seq<Row>) {
    forall p, q :: 0 <= p < q < |rows| ==> rows[p].id != rows[q].id
  }

  /** convs are the rows of those of the ids that have one. */
  ghost predicate IsListing(convs: seq<Row>, ids: seq<Id>, t: Tables) {
    && IdsDiffer(convs) && AllLoaded(convs, t)
    && (forall j :: 0 <= j < |convs| ==> convs[j].id in ids)
    && Elements(ActivityKeys(convs)) == KeysAmong(t, Elements(ids))
  }

  lemma ListOneMore(convs: seq<Row>, listed: seq<Id>, i: nat, t: Tables)
    requires i < |listed| && Distinct(listed) && IsListing(convs, listed[..i], t)
    ensures var c := listed[i];
      IsListing(if c in t.conversations then convs + [Loaded(t, c)] else convs, listed[..i + 1], t)
  {
    var c := listed[i];
    assert listed[..i + 1] == listed[..i] + [c];
    ElementsAppend(listed[..i], c);
    if c in t.conversations {
      assert c !in listed[..i];
      ListKeys(convs, listed[..i], c, t);
    } else {
      assert KeysAmong(t, Elements(listed[..i + 1])) == KeysAmong(t, Elements(listed[..i]));
    }
  }

  lemma ListKeys(convs: seq<Row>, ids: seq<Id>, c: Id, t: Tables)
    requires c in t.conversations && Elements(ActivityKeys(convs)) == KeysAmong(t, Elements(ids))
    ensures Elements(ActivityKeys(convs + [Loaded(t, c)])) == KeysAmong(t, Elements(ids) + {c})
  {
    var row := Loaded(t, c);
    assert ActivityKeys(convs + [row]) == ActivityKeys(convs) + [ActivityKey(row)];
    ElementsAppend(ActivityKeys(convs), ActivityKey(row));
    KeysAmongAdd(t, Elements(ids), c);
  }

  ghost function KeysAmong(t: Tables, ids: set<Id>): set<Cursor> {
    set c | c in ids && c in t.conversations :: ActivityKey(Loaded(t, c))
  }

  lemma KeysAmongAdd(t: Tables, ids: set<Id>, c: Id)
    requires c in t.conversations
    ensures KeysAmong(t, ids + {c}) == KeysAmong(t, ids) + {ActivityKey(Loaded(t, c))}
  { }

  /** The search loop of UpdateReadCursor: the first entry of the user is updated in place. */
  method MarkFirst(before: seq<Participant>, user: Id, messageId: Id, readAt: int)
    returns (found: bool, ps: seq<Participant>)
    ensures found == (user in Members(before))
    ensures ps == if found then MarkRead(before, user, messageId, readAt) else before
  {
    ps := before;
    for i := 0 to |before|
      invariant ps == before && forall j :: 0 <= j < i ==> before[j].userId != user
    {
      if ps[i].userId == user {
        assert Ids(before)[i] == user;
        assert FirstEntry(before, user) == i;
        ps := ps[i := ps[i].(lastReadMessageId := messageId, lastReadAt := readAt)];
        return true, ps;
      }
    }
    found := false;
  }

  lemma ReadCursorWrite(c: Id, user: Id, messageId: Id, readAt: int, t: Tables)
    requires c in t.conversations && user in Members(t.conversations[c].participants)
    ensures AfterOperation(Operation.UpdateReadCursor(c, user, messageId, readAt), t) ==
            Execute(WriteParticipants(c, MarkRead(t.conversations[c].participants, user, messageId, readAt), None), t)
  {
    var write := WriteParticipants(c, MarkRead(t.conversations[c].participants, user, messageId, readAt), None);
    assert Script(Operation.UpdateReadCursor(c, user, messageId, readAt), t) == [write];
    RunOne(write, t);
  }

  /** The cursor scan of FindByUser: no match means an empty page. */
  method FindStart(convs: seq<Row>, after: Option<Cursor>) returns (start: nat)
    ensures IsStart(ActivityKeys(convs), after, start)
  {
    start := 0;
    if after.Some? {
      for i := 0 to |convs|
        invariant start == if i == 0 then 0 else |convs|
        invariant forall j :: 0 <= j < i ==> !Below(ActivityKey(convs[j]), after)
      {
        if Older(ActivityKey(convs[i]), after.value) { return i; }
        start := |convs|;
      }
    }
  }

  lemma KeysOfSlice(convs: seq<Row>, start: nat, end: nat)
    requires start <= end <= |convs|
    ensures ActivityKeys(convs[start..end]) == ActivityKeys(convs)[start..end]
    ensures forall i :: 0 <= i < |convs[start..end]| ==> convs[start..end][i] in convs
  {
    forall i | 0 <= i < |convs[start..end]| ensures convs[start..end][i] in convs {
      assert convs[start..end][i] == convs[start + i];
    }
  }

  /** The page is a slice of the sorted list, from the first conversation below the cursor. */
  method CutPage(convs: seq<Row>, after: Option<Cursor>, limit: nat) returns (page: ConversationPage)
    requires Descending(ActivityKeys(convs)) && limit >= 1
    ensures IsPage(Elements(ActivityKeys(convs)), after, limit, ActivityKeys(page.items), page.hasMore, page.next)
    ensures forall i :: 0 <= i < |page.items| ==> page.items[i] in convs
  {
    var start := FindStart(convs, after);
    var end := start + limit;
    var hasMore := end < |convs|;
    if end > |convs| { end := |convs|; }
    ghost var ks := ActivityKeys(convs);
    SliceIsPage(ks, after, limit, start, end);
    var items := convs[start..end];
    KeysOfSlice(convs, start, end);
    page := ConversationPage(items, hasMore,
      if hasMore && |items| > 0 then Some(ActivityKey(items[|items| - 1])) else None);
  }

  ghost predicate AllLoaded(rows: seq<Row>, t: Tables) {
    forall i :: 0 <= i < |rows| ==> rows[i].id in t.conversations && rows[i] == Loaded(t, rows[i].id)
  }

  /** Newest activity first, larger id first among equals. */
  method SortByActivity(rows: seq<Row>, ghost t: Tables) returns (sorted: seq<Row>)
    requires IdsDiffer(rows) && AllLoaded(rows, t)
    ensures Descending(ActivityKeys(sorted)) && Elements(ActivityKeys(sorted)) == Elements(ActivityKeys(rows))
    ensures AllLoaded(sorted, t)
  {
    sorted := [];
    ghost var ks := ActivityKeys(rows);
    for i := 0 to |rows|
      invariant Descending(ActivityKeys(sorted)) && Elements(ActivityKeys(sorted)) == Elements(ks[..i])
      invariant AllLoaded(sorted, t)
    {
      assert ks[..i + 1] == ks[..i] + [ks[i]];
      ElementsAppend(ks[..i], ks[i]);
      assert ks[i] !in ks[..i];
      sorted := InsertByActivity(sorted, rows[i], t);
    }
    assert ks[..|rows|] == ks;
  }

  method InsertByActivity(rows: seq<Row>, row: Row, ghost t: Tables) returns (r: seq<Row>)
    requires Descending(ActivityKeys(rows)) && ActivityKey(row) !in Elements(ActivityKeys(rows))
    requires AllLoaded(rows, t) && AllLoaded([row], t)
    ensures Descending(ActivityKeys(r))
    ensures Elements(ActivityKeys(r)) == Elements(ActivityKeys(rows)) + {ActivityKey(row)}
    ensures AllLoaded(r, t)
  {
    var i := 0;
    ghost var ks, k := ActivityKeys(rows), ActivityKey(row);
    while i < |rows| && Older(ActivityKey(row), ActivityKey(rows[i]))
      invariant 0 <= i <= |rows|
      invariant forall j :: 0 <= j < i ==> Older(k, ks[j])
    {
      i := i + 1;
    }
    r := rows[..i] + [row] + rows[i..];
    assert ActivityKeys(r) == ks[..i] + [k] + ks[i..];
    InsertKeepsDescending(ks, i, k);
    assert row == [row][0];
    forall j | 0 <= j < |r| ensures r[j].id in t.conversations && r[j] == Loaded(t, r[j].id) {
      assert r[j] == if j < i then rows[j] else if j == i then row else rows[j - 1];
    }
  }
}
