/** The four conversation tables (internal/adapter/repository/schema.go) and what the statements
    of internal/adapter/repository/conversation_repo.go do to them. An operation is a script of
    statements, each atomic; a request that stops early has run a prefix of its script. */
module ConversationStore {
  import opened Basics
  import opened Conversations
  import TextKeys

  /** conversations by id; (user, conversation); (conversation, user); lookup key to conversation. */
  datatype Tables = Tables(conversations: map<Id, Row>,
                           userConversations: set<(Id, Id)>,
                           conversationParticipants: set<(Id, Id)>,
                           directConversations: map<string, Id>)

  datatype Statement =
    | ClaimKey(key: string, conversationId: Id)              // INSERT ... IF NOT EXISTS
    | WriteRow(row: Row)                                     // INSERT, or UPDATE of every column
    | WriteParticipants(conversationId: Id, participants: seq<Participant>, updatedAt: Option<int>)
    | WriteLastMessage(conversationId: Id, lastMessage: LastMessage)
    | InsertForward(user: Id, conversationId: Id)
    | InsertReverse(conversationId: Id, user: Id)
    | DeleteForward(user: Id, conversationId: Id)
    | DeleteReverse(conversationId: Id, user: Id)

  /** An UPDATE of an absent id creates a row with the other columns empty. */
  function RowToUpdate(t: Tables, id: Id): Row {
    if id in t.conversations then t.conversations[id] else Row(id, NoKind, "", "", [], None, false, 0, 0)
  }

  function Execute(s: Statement, t: Tables): Tables {
    match s
    case ClaimKey(key, c) =>
      if key in t.directConversations then t else t.(directConversations := t.directConversations[key := c])
    case WriteRow(row) => t.(conversations := t.conversations[row.id := row])
    case WriteParticipants(c, ps, at) =>
      var row := RowToUpdate(t, c).(participants := ps);
      t.(conversations := t.conversations[c := if at.Some? then row.(updatedAt := at.value) else row])
    case WriteLastMessage(c, m) =>
      t.(conversations := t.conversations[c := RowToUpdate(t, c).(lastMessage := Some(m), updatedAt := m.sentAt)])
    case InsertForward(u, c) => t.(userConversations := t.userConversations + {(u, c)})
    case InsertReverse(c, u) => t.(conversationParticipants := t.conversationParticipants + {(c, u)})
    case DeleteForward(u, c) => t.(userConversations := t.userConversations - {(u, c)})
    case DeleteReverse(c, u) => t.(conversationParticipants := t.conversationParticipants - {(c, u)})
  }

  function Run(script: seq<Statement>, t: Tables): Tables {
    if script == [] then t else Execute(script[|script| - 1], Run(script[..|script| - 1], t))
  }

  lemma RunOneMore(script: seq<Statement>, k: nat, t: Tables)
    requires k < |script|
    ensures Run(script[..k + 1], t) == Execute(script[k], Run(script[..k], t))
  {
    assert script[..k + 1][..k] == script[..k];
  }

  lemma {:induction false} RunConcat(a: seq<Statement>, b: seq<Statement>, t: Tables)
    ensures Run(a + b, t) == Run(b, Run(a, t))
    decreases |b|
  {
    if b == [] {
      assert a + b == a;
    } else {
      var front := b[..|b| - 1];
      RunConcat(a, front, t);
      assert (a + b)[..|a + b| - 1] == a + front;
    }
  }

  /** What a script leaves behind when its statements, sent one by one, meet these fates. */
  function Sent(script: seq<Statement>, fate: nat -> Fate, first: nat, t: Tables): Tables {
    if script == [] then t
    else match fate(first)
      case Refused => t
      case TimedOut => Execute(script[0], t)
      case Done => Sent(script[1..], fate, first + 1, Execute(script[0], t))
  }

  lemma SentCons(s: Statement, rest: seq<Statement>, fate: nat -> Fate, first: nat, t: Tables)
    ensures Sent([s] + rest, fate, first, t) ==
      match fate(first)
      case Refused => t
      case TimedOut => Execute(s, t)
      case Done => Sent(rest, fate, first + 1, Execute(s, t))
    ensures AllDone(fate, first, |[s] + rest|) <==> fate(first) == Done && AllDone(fate, first + 1, |rest|)
  {
    assert ([s] + rest)[1..] == rest;
  }

  lemma SentTwo(a: Statement, b: Statement, fate: nat -> Fate, first: nat, t: Tables)
    ensures Sent([a, b], fate, first, t) ==
      if fate(first) == Refused then t
      else if fate(first) == TimedOut || fate(first + 1) == Refused then Execute(a, t)
      else Execute(b, Execute(a, t))
  {
    assert [a, b] == [a] + [b] && [b] == [b] + [];
    SentCons(a, [b], fate, first, t);
    SentCons(b, [], fate, first + 1, Execute(a, t));
  }

  lemma RunCons(s: Statement, rest: seq<Statement>, t: Tables)
    ensures Run([s] + rest, t) == Run(rest, Execute(s, t))
  {
    RunOne(s, t);
    RunConcat([s], rest, t);
  }

  /** It is always a prefix that took effect, the whole script when nothing failed. */
  lemma {:induction false} SentIsPrefix(script: seq<Statement>, fate: nat -> Fate, first: nat, t: Tables)
    ensures Sent(script, fate, first, t) == Run(script[..TookEffect(fate, first, |script|)], t)
    ensures AllDone(fate, first, |script|) ==> Sent(script, fate, first, t) == Run(script, t)
    decreases |script|
  {
    var n := TookEffect(fate, first, |script|);
    AllTookEffect(fate, first, |script|);
    assert script[..|script|] == script;
    if script != [] && fate(first) != Refused {
      var rest := script[1..];
      assert script[..n] == [script[0]] + rest[..n - 1];
      RunCons(script[0], rest[..n - 1], t);
      if fate(first) == Done { SentIsPrefix(rest, fate, first + 1, Execute(script[0], t)); }
    }
  }

  lemma {:induction false} SentConcat(a: seq<Statement>, b: seq<Statement>, fate: nat -> Fate, first: nat, t: Tables)
    ensures Sent(a + b, fate, first, t) ==
      if AllDone(fate, first, |a|) then Sent(b, fate, first + |a|, Sent(a, fate, first, t)) else Sent(a, fate, first, t)
    ensures AllDone(fate, first, |a + b|) <==> AllDone(fate, first, |a|) && AllDone(fate, first + |a|, |b|)
    decreases |a|
  {
    TookEffectSplit(fate, first, |a|, |b|);
    if a == [] {
      assert a + b == b;
    } else if fate(first) == Done {
      SentConcat(a[1..], b, fate, first + 1, Execute(a[0], t));
      assert (a + b)[1..] == a[1..] + b;
    }
  }

  lemma RunOne(s: Statement, t: Tables)
    ensures Run([s], t) == Execute(s, t)
  {
    assert [s][..0] == [];
  }

  // ---- the scripts ----

  function InsertIndexes(c: Id, users: seq<Id>): (s: seq<Statement>)
    ensures |s| == 2 * |users|
  {
    if users == [] then []
    else
      var last := users[|users| - 1];
      InsertIndexes(c, users[..|users| - 1]) + [InsertForward(last, c), InsertReverse(c, last)]
  }

  function DeleteIndexes(c: Id, users: seq<Id>): (s: seq<Statement>)
    ensures |s| == 2 * |users|
  {
    if users == [] then []
    else
      var last := users[|users| - 1];
      DeleteIndexes(c, users[..|users| - 1]) + [DeleteForward(last, c), DeleteReverse(c, last)]
  }

  /** A direct conversation of two claims its lookup key before anything is written. */
  predicate Claims(row: Row) {
    row.kind == Direct && |row.participants| == 2
  }

  function RowKey(row: Row): string
    requires Claims(row)
  {
    TextKeys.DirectKey(row.participants[0].userId, row.participants[1].userId)
  }

  function CreateScript(row: Row): seq<Statement> {
    (if Claims(row) then [ClaimKey(RowKey(row), row.id)] else [])
    + [WriteRow(row)] + InsertIndexes(row.id, Ids(row.participants))
  }

  /** added and removed list the difference of the two participant sets in the order the maps
      happened to be ranged over. */
  function UpdateScript(row: Row, added: seq<Id>, removed: seq<Id>): seq<Statement> {
    [WriteRow(row)] + InsertIndexes(row.id, added) + DeleteIndexes(row.id, removed)
  }

  function AddScript(c: Id, ps: seq<Participant>, p: Participant, now: int): seq<Statement> {
    [WriteParticipants(c, ps + [p], Some(now))] + InsertIndexes(c, [p.userId])
  }

  function RemoveScript(c: Id, ps: seq<Participant>, user: Id, now: int): seq<Statement> {
    [WriteParticipants(c, Without(ps, user), Some(now))] + DeleteIndexes(c, [user])
  }

  // ---- what a prefix of a script does ----

  ghost function Forward(c: Id, users: set<Id>): set<(Id, Id)> { set u | u in users :: (u, c) }
  ghost function Reverse(c: Id, users: set<Id>): set<(Id, Id)> { set u | u in users :: (c, u) }

  ghost function Inserted(c: Id, forward: set<Id>, reverse: set<Id>, t: Tables): Tables {
    t.(userConversations := t.userConversations + Forward(c, forward),
       conversationParticipants := t.conversationParticipants + Reverse(c, reverse))
  }

  ghost function Deleted(c: Id, forward: set<Id>, reverse: set<Id>, t: Tables): Tables {
    t.(userConversations := t.userConversations - Forward(c, forward),
       conversationParticipants := t.conversationParticipants - Reverse(c, reverse))
  }

  /** A prefix of the inserts has put some users into the forward index and a subset of those
      into the reverse index; the whole script has put all of them into both. */
  lemma {:induction false} InsertPrefix(c: Id, users: seq<Id>, k: nat, t: Tables)
    returns (forward: set<Id>, reverse: set<Id>)
    requires k <= 2 * |users|
    ensures reverse <= forward <= Elements(users)
    ensures k == 2 * |users| ==> reverse == Elements(users)
    ensures Run(InsertIndexes(c, users)[..k], t) == Inserted(c, forward, reverse, t)
    decreases |users|
  {
    if users == [] {
      forward, reverse := {}, {};
      assert Forward(c, {}) == {} && Reverse(c, {}) == {};
    } else {
      var front, last := users[..|users| - 1], users[|users| - 1];
      var before, both := InsertIndexes(c, front), [InsertForward(last, c), InsertReverse(c, last)];
      assert users == front + [last];
      assert InsertIndexes(c, users) == before + both;
      if k <= |before| {
        forward, reverse := InsertPrefix(c, front, k, t);
        assert (before + both)[..k] == before[..k];
      } else {
        forward, reverse := InsertPrefix(c, front, |before|, t);
        assert before[..|before|] == before;
        assert (before + both)[..k] == before + both[..k - |before|];
        RunConcat(before, both[..k - |before|], t);
        InsertPair(c, last, k - |before|, forward, reverse, t);
        forward, reverse := forward + {last}, if k - |before| == 2 then reverse + {last} else reverse;
      }
    }
  }

  lemma InsertPair(c: Id, u: Id, k: nat, forward: set<Id>, reverse: set<Id>, t: Tables)
    requires 1 <= k <= 2
    ensures Run([InsertForward(u, c), InsertReverse(c, u)][..k], Inserted(c, forward, reverse, t)) ==
            Inserted(c, forward + {u}, if k == 2 then reverse + {u} else reverse, t)
  {
    var both, t1 := [InsertForward(u, c), InsertReverse(c, u)], Inserted(c, forward, reverse, t);
    assert both[..0] == [];
    RunOneMore(both, 0, t1);
    RunOneMore(both, 1, t1);
    assert Forward(c, forward + {u}) == Forward(c, forward) + {(u, c)};
    assert Reverse(c, reverse + {u}) == Reverse(c, reverse) + {(c, u)};
    assert t.userConversations + Forward(c, forward) + {(u, c)} == t.userConversations + Forward(c, forward + {u});
    assert t.conversationParticipants + Reverse(c, reverse) + {(c, u)} ==
           t.conversationParticipants + Reverse(c, reverse + {u});
  }

  lemma {:induction false} DeletePrefix(c: Id, users: seq<Id>, k: nat, t: Tables)
    returns (forward: set<Id>, reverse: set<Id>)
    requires k <= 2 * |users|
    ensures reverse <= forward <= Elements(users)
    ensures k == 2 * |users| ==> reverse == Elements(users)
    ensures Run(DeleteIndexes(c, users)[..k], t) == Deleted(c, forward, reverse, t)
    decreases |users|
  {
    if users == [] {
      forward, reverse := {}, {};
      assert Forward(c, {}) == {} && Reverse(c, {}) == {};
    } else {
      var front, last := users[..|users| - 1], users[|users| - 1];
      var before, both := DeleteIndexes(c, front), [DeleteForward(last, c), DeleteReverse(c, last)];
      assert users == front + [last];
      assert DeleteIndexes(c, users) == before + both;
      if k <= |before| {
        forward, reverse := DeletePrefix(c, front, k, t);
        assert (before + both)[..k] == before[..k];
      } else {
        forward, reverse := DeletePrefix(c, front, |before|, t);
        assert before[..|before|] == before;
        assert (before + both)[..k] == before + both[..k - |before|];
        RunConcat(before, both[..k - |before|], t);
        DeletePair(c, last, k - |before|, forward, reverse, t);
        forward, reverse := forward + {last}, if k - |before| == 2 then reverse + {last} else reverse;
      }
    }
  }

  lemma DeletePair(c: Id, u: Id, k: nat, forward: set<Id>, reverse: set<Id>, t: Tables)
    requires 1 <= k <= 2
    ensures Run([DeleteForward(u, c), DeleteReverse(c, u)][..k], Deleted(c, forward, reverse, t)) ==
            Deleted(c, forward + {u}, if k == 2 then reverse + {u} else reverse, t)
  {
    var both, t1 := [DeleteForward(u, c), DeleteReverse(c, u)], Deleted(c, forward, reverse, t);
    assert both[..0] == [];
    RunOneMore(both, 0, t1);
    RunOneMore(both, 1, t1);
    assert Forward(c, forward + {u}) == Forward(c, forward) + {(u, c)};
    assert Reverse(c, reverse + {u}) == Reverse(c, reverse) + {(c, u)};
    assert t.userConversations - Forward(c, forward) - {(u, c)} == t.userConversations - Forward(c, forward + {u});
    assert t.conversationParticipants - Reverse(c, reverse) - {(c, u)} ==
           t.conversationParticipants - Reverse(c, reverse + {u});
  }

  lemma RunUpToThree(a: Statement, b: Statement, c: Statement, k: nat, t: Tables)
    requires k <= 3
    ensures Run(([a] + [b, c])[..k], t) ==
      if k == 0 then t else if k == 1 then Execute(a, t)
      else if k == 2 then Execute(b, Execute(a, t)) else Execute(c, Execute(b, Execute(a, t)))
  {
    var s := [a] + [b, c];
    assert s[..0] == [];
    if k >= 1 { RunOneMore(s, 0, t); }
    if k >= 2 { RunOneMore(s, 1, t); }
    if k >= 3 { RunOneMore(s, 2, t); }
  }

  /** How far a cut-off Update got with each index. */
  datatype Progress = Progress(addedForward: set<Id>, addedReverse: set<Id>,
                               removedForward: set<Id>, removedReverse: set<Id>)

  lemma UpdatePrefix(row: Row, added: seq<Id>, removed: seq<Id>, k: nat, t: Tables) returns (p: Progress)
    requires k <= |UpdateScript(row, added, removed)|
    ensures p.addedReverse <= p.addedForward <= Elements(added)
    ensures p.removedReverse <= p.removedForward <= Elements(removed)
    ensures k == |UpdateScript(row, added, removed)| ==>
              p.addedReverse == Elements(added) && p.removedReverse == Elements(removed)
    ensures Run(UpdateScript(row, added, removed)[..k], t) ==
      Tables(if k == 0 then t.conversations else t.conversations[row.id := row],
             t.userConversations + Forward(row.id, p.addedForward) - Forward(row.id, p.removedForward),
             t.conversationParticipants + Reverse(row.id, p.addedReverse) - Reverse(row.id, p.removedReverse),
             t.directConversations)
  {
    var script := UpdateScript(row, added, removed);
    var ins, del := InsertIndexes(row.id, added), DeleteIndexes(row.id, removed);
    if k == 0 {
      p := Progress({}, {}, {}, {});
      assert Forward(row.id, {}) == {} && Reverse(row.id, {}) == {};
    } else {
      var a := if k - 1 <= |ins| then k - 1 else |ins|;
      var d := k - 1 - a;
      var t1 := Execute(WriteRow(row), t);
      assert script[..k] == [WriteRow(row)] + (ins[..a] + del[..d]);
      RunConcat([WriteRow(row)], ins[..a] + del[..d], t);
      RunOne(WriteRow(row), t);
      RunConcat(ins[..a], del[..d], t1);
      var af, ar := InsertPrefix(row.id, added, a, t1);
      var rf, rr := DeletePrefix(row.id, removed, d, Run(ins[..a], t1));
      p := Progress(af, ar, rf, rr);
    }
  }

  // ---- agreement of the blob and the two indexes ----

  /** The participants blob, user_conversations and conversation_participants name the same
      users of c; an absent conversation is in no index. */
  ghost predicate Agrees(t: Tables, c: Id) {
    forall u :: AgreesOn(t, c, u)
  }

  ghost predicate AgreesOn(t: Tables, c: Id, u: Id) {
    && ((u, c) in t.userConversations <==> (c, u) in t.conversationParticipants)
    && ((c, u) in t.conversationParticipants <==> c in t.conversations && u in Members(t.conversations[c].participants))
  }

  ghost predicate AllAgree(t: Tables) {
    forall c :: Agrees(t, c)
  }

  /** The operation wrote nothing that belongs to another conversation. */
  ghost predicate OnlyTouches(t: Tables, t': Tables, c: Id) {
    && (forall d :: d != c ==> (d in t.conversations <==> d in t'.conversations))
    && (forall d :: d != c && d in t.conversations && d in t'.conversations ==>
          t.conversations[d] == t'.conversations[d])
    && (forall e: (Id, Id) :: e.1 != c ==> (e in t.userConversations <==> e in t'.userConversations))
    && (forall e: (Id, Id) :: e.0 != c ==> (e in t.conversationParticipants <==> e in t'.conversationParticipants))
  }

  lemma OthersStillAgree(t: Tables, t': Tables, c: Id, d: Id)
    requires OnlyTouches(t, t', c) && d != c && Agrees(t, d)
    ensures Agrees(t', d)
  {
    forall u ensures AgreesOn(t', d, u) {
      assert AgreesOn(t, d, u);
      assert (u, d).1 != c && (d, u).0 != c;
    }
  }

  ghost function Indexed(t: Tables, c: Id): set<Id> {
    set e | e in t.conversationParticipants && e.0 == c :: e.1
  }

  ghost predicate Lists(s: seq<Id>, users: set<Id>) {
    Distinct(s) && Elements(s) == users
  }

  // ---- Update: cut off anywhere, then run again ----

  /** What every attempt keeps: a wanted user that the reverse index has is also in the forward
      index, and an unwanted user in the forward index is still in the reverse index. */
  ghost predicate Repairable(t: Tables, c: Id, wanted: set<Id>) {
    && (forall u :: u in wanted && (c, u) in t.conversationParticipants ==> (u, c) in t.userConversations)
    && (forall u :: u !in wanted && (u, c) in t.userConversations ==> (c, u) in t.conversationParticipants)
  }

  /** One call of Update: it read the indexes in state t, and the first cut statements took effect. */
  datatype Attempt = Attempt(added: seq<Id>, removed: seq<Id>, cut: nat)

  ghost predicate IsAttempt(a: Attempt, row: Row, t: Tables) {
    && Lists(a.added, Members(row.participants) - Indexed(t, row.id))
    && Lists(a.removed, Indexed(t, row.id) - Members(row.participants))
    && a.cut <= |UpdateScript(row, a.added, a.removed)|
  }

  ghost predicate Finished(a: Attempt, row: Row) {
    a.cut == |UpdateScript(row, a.added, a.removed)|
  }

  function AfterAttempt(a: Attempt, row: Row, t: Tables): Tables
    requires a.cut <= |UpdateScript(row, a.added, a.removed)|
  {
    Run(UpdateScript(row, a.added, a.removed)[..a.cut], t)
  }

  lemma AttemptKeepsRepairable(a: Attempt, row: Row, t: Tables)
    requires IsAttempt(a, row, t) && Repairable(t, row.id, Members(row.participants))
    ensures Repairable(AfterAttempt(a, row, t), row.id, Members(row.participants))
  {
    var c, wanted, t' := row.id, Members(row.participants), AfterAttempt(a, row, t);
    var p := UpdatePrefix(row, a.added, a.removed, a.cut, t);
    assert forall u :: (c, u) in t'.conversationParticipants ==>
                         (c, u) in t.conversationParticipants || u in p.addedReverse;
    assert forall u :: (u, c) in t'.userConversations ==> (u, c) in t.userConversations || u in p.addedForward;
  }

  /** A finished Update brings blob and indexes together exactly when the state was repairable. */
  lemma FinishedUpdateAgreesIff(a: Attempt, row: Row, t: Tables)
    requires IsAttempt(a, row, t) && Finished(a, row)
    ensures Agrees(AfterAttempt(a, row, t), row.id) <==> Repairable(t, row.id, Members(row.participants))
    ensures row.id in AfterAttempt(a, row, t).conversations && AfterAttempt(a, row, t).conversations[row.id] == row
  {
    var c, wanted, t' := row.id, Members(row.participants), AfterAttempt(a, row, t);
    var p := UpdatePrefix(row, a.added, a.removed, a.cut, t);
    assert UpdateScript(row, a.added, a.removed)[..a.cut] == UpdateScript(row, a.added, a.removed);
    forall u
      ensures AgreesOn(t', c, u) <==>
              ((u in wanted && (c, u) in t.conversationParticipants ==> (u, c) in t.userConversations) &&
               (u !in wanted && (u, c) in t.userConversations ==> (c, u) in t.conversationParticipants))
    {
      assert (c, u) in t.conversationParticipants <==> u in Indexed(t, c);
      assert u in Elements(a.added) <==> u in wanted - Indexed(t, c);
      assert u in Elements(a.removed) <==> u in Indexed(t, c) - wanted;
    }
  }

  ghost predicate AreAttempts(s: seq<Attempt>, row: Row, t: Tables)
    decreases |s|, 1
  {
    s == [] || (AreAttempts(s[..|s| - 1], row, t) && IsAttempt(s[|s| - 1], row, AfterAttempts(s[..|s| - 1], row, t)))
  }

  ghost function AfterAttempts(s: seq<Attempt>, row: Row, t: Tables): Tables
    requires AreAttempts(s, row, t)
    decreases |s|, 2
  {
    if s == [] then t else AfterAttempt(s[|s| - 1], row, AfterAttempts(s[..|s| - 1], row, t))
  }

  lemma {:induction false} AttemptsKeepRepairable(s: seq<Attempt>, row: Row, t: Tables)
    requires AreAttempts(s, row, t) && Repairable(t, row.id, Members(row.participants))
    ensures Repairable(AfterAttempts(s, row, t), row.id, Members(row.participants))
    ensures OnlyTouches(t, AfterAttempts(s, row, t), row.id)
    decreases |s|
  {
    if s == [] {
    } else {
      var before, last := s[..|s| - 1], s[|s| - 1];
      AttemptsKeepRepairable(before, row, t);
      AttemptKeepsRepairable(last, row, AfterAttempts(before, row, t));
      var _ := UpdatePrefix(row, last.added, last.removed, last.cut, AfterAttempts(before, row, t));
    }
  }

  /** Any number of attempts cut off at any statement, then one that finishes: blob and both
      indexes are exactly the new participant set, and no other conversation is affected. */
  lemma UpdateConverges(s: seq<Attempt>, row: Row, t: Tables)
    requires Agrees(t, row.id) && AreAttempts(s, row, t)
    requires s != [] && Finished(s[|s| - 1], row)
    ensures var t' := AfterAttempts(s, row, t);
      && Agrees(t', row.id) && OnlyTouches(t, t', row.id)
      && row.id in t'.conversations && t'.conversations[row.id] == row
  {
    var c := row.id;
    forall u ensures (u, c) in t.userConversations <==> (c, u) in t.conversationParticipants {
      assert AgreesOn(t, c, u);
    }
    assert Repairable(t, c, Members(row.participants));
    var before := s[..|s| - 1];
    AttemptsKeepRepairable(before, row, t);
    AttemptsKeepRepairable(s, row, t);
    FinishedUpdateAgreesIff(s[|s| - 1], row, AfterAttempts(before, row, t));
  }

  // ---- RemoveParticipant and AddParticipant cut off ----

  ghost predicate AgreesExcept(t: Tables, c: Id, user: Id) {
    forall u :: u != user ==> AgreesOn(t, c, u)
  }

  /** One call of RemoveParticipant of which the first cut statements took effect. */
  datatype Removal = Removal(now: int, cut: nat)

  function AfterRemoval(r: Removal, c: Id, user: Id, t: Tables): Tables
    requires r.cut <= 3
  {
    if c !in t.conversations then t
    else Run(RemoveScript(c, t.conversations[c].participants, user, r.now)[..r.cut], t)
  }

  lemma RemovePrefix(r: Removal, c: Id, user: Id, t: Tables)
    requires r.cut <= 3 && c in t.conversations
    ensures var t' := AfterRemoval(r, c, user, t);
      && t'.userConversations == t.userConversations - (if r.cut >= 2 then {(user, c)} else {})
      && t'.conversationParticipants == t.conversationParticipants - (if r.cut == 3 then {(c, user)} else {})
      && t'.directConversations == t.directConversations
      && t'.conversations == if r.cut == 0 then t.conversations
           else var row := t.conversations[c];
                t.conversations[c := row.(participants := Without(row.participants, user), updatedAt := r.now)]
  {
    var ps := Without(t.conversations[c].participants, user);
    var write := WriteParticipants(c, ps, Some(r.now));
    assert DeleteIndexes(c, [user]) == [DeleteForward(user, c), DeleteReverse(c, user)] by { assert [user][..0] == []; }
    assert RemoveScript(c, t.conversations[c].participants, user, r.now) ==
           [write] + [DeleteForward(user, c), DeleteReverse(c, user)];
    var t1 := t.(conversations := t.conversations[c := t.conversations[c].(participants := ps, updatedAt := r.now)]);
    var t2 := t1.(userConversations := t.userConversations - {(user, c)});
    assert Execute(write, t) == t1;
    assert Execute(DeleteForward(user, c), t1) == t2;
    var t3 := t2.(conversationParticipants := t.conversationParticipants - {(c, user)});
    assert Execute(DeleteReverse(c, user), t2) == t3;
    RunUpToThree(write, DeleteForward(user, c), DeleteReverse(c, user), r.cut, t);
  }

  lemma RemovalKeepsOthers(r: Removal, c: Id, user: Id, t: Tables)
    requires r.cut <= 3
    ensures AgreesExcept(t, c, user) <==> AgreesExcept(AfterRemoval(r, c, user, t), c, user)
    ensures OnlyTouches(t, AfterRemoval(r, c, user, t), c)
    ensures c in t.conversations <==> c in AfterRemoval(r, c, user, t).conversations
  {
    if c in t.conversations {
      RemovePrefix(r, c, user, t);
      WithoutMembers(t.conversations[c].participants, user);
      var t' := AfterRemoval(r, c, user, t);
      forall u | u != user ensures AgreesOn(t, c, u) <==> AgreesOn(t', c, u) {
        OneUserUnmoved(t, t', c, user, u);
      }
    }
  }

  /** Nothing was done to any user but one. */
  lemma OneUserUnmoved(t: Tables, t': Tables, c: Id, user: Id, u: Id)
    requires u != user && c in t.conversations && c in t'.conversations
    requires t'.userConversations == t.userConversations || t'.userConversations == t.userConversations - {(user, c)}
    requires t'.conversationParticipants == t.conversationParticipants
             || t'.conversationParticipants == t.conversationParticipants - {(c, user)}
    requires var m, m' := Members(t.conversations[c].participants), Members(t'.conversations[c].participants);
      m' == m || m' == m - {user}
    ensures AgreesOn(t, c, u) <==> AgreesOn(t', c, u)
  { }

  /** A finished removal restores agreement exactly when only the removed user was out of line. */
  lemma FinishedRemovalAgreesIff(r: Removal, c: Id, user: Id, t: Tables)
    requires r.cut == 3 && c in t.conversations
    ensures var t' := AfterRemoval(r, c, user, t);
      && (Agrees(t', c) <==> AgreesExcept(t, c, user))
      && c in t'.conversations && user !in Members(t'.conversations[c].participants)
  {
    RemovePrefix(r, c, user, t);
    RemovalKeepsOthers(r, c, user, t);
    WithoutMembers(t.conversations[c].participants, user);
    assert AgreesOn(AfterRemoval(r, c, user, t), c, user);
  }

  function AfterRemovals(rs: seq<Removal>, c: Id, user: Id, t: Tables): Tables
    requires forall i :: 0 <= i < |rs| ==> rs[i].cut <= 3
  {
    if rs == [] then t else AfterRemoval(rs[|rs| - 1], c, user, AfterRemovals(rs[..|rs| - 1], c, user, t))
  }

  lemma {:induction false} RemovalsKeepOthers(rs: seq<Removal>, c: Id, user: Id, t: Tables)
    requires forall i :: 0 <= i < |rs| ==> rs[i].cut <= 3
    requires AgreesExcept(t, c, user) && c in t.conversations
    ensures AgreesExcept(AfterRemovals(rs, c, user, t), c, user) && c in AfterRemovals(rs, c, user, t).conversations
    ensures OnlyTouches(t, AfterRemovals(rs, c, user, t), c)
    decreases |rs|
  {
    if rs == [] {
    } else {
      RemovalsKeepOthers(rs[..|rs| - 1], c, user, t);
      RemovalKeepsOthers(rs[|rs| - 1], c, user, AfterRemovals(rs[..|rs| - 1], c, user, t));
    }
  }

  /** RemoveParticipant cut off any number of times and then run to the end: the user is gone
      from the blob and both indexes, and everything else agrees as before. */
  lemma RemoveConverges(rs: seq<Removal>, c: Id, user: Id, t: Tables)
    requires Agrees(t, c) && c in t.conversations
    requires rs != [] && rs[|rs| - 1].cut == 3 && forall i :: 0 <= i < |rs| ==> rs[i].cut <= 3
    ensures var t' := AfterRemovals(rs, c, user, t);
      && Agrees(t', c) && OnlyTouches(t, t', c)
      && c in t'.conversations && user !in Members(t'.conversations[c].participants)
  {
    var before := rs[..|rs| - 1];
    RemovalsKeepOthers(before, c, user, t);
    FinishedRemovalAgreesIff(rs[|rs| - 1], c, user, AfterRemovals(before, c, user, t));
    RemovalsKeepOthers(rs, c, user, t);
  }

  function AfterAdd(c: Id, p: Participant, now: int, cut: nat, t: Tables): Tables
    requires cut <= 3
  {
    if c !in t.conversations then t
    else Run(AddScript(c, t.conversations[c].participants, p, now)[..cut], t)
  }

  lemma AddPrefix(c: Id, p: Participant, now: int, cut: nat, t: Tables)
    requires cut <= 3 && c in t.conversations
    ensures var t' := AfterAdd(c, p, now, cut, t);
      && t'.userConversations == t.userConversations + (if cut >= 2 then {(p.userId, c)} else {})
      && t'.conversationParticipants == t.conversationParticipants + (if cut == 3 then {(c, p.userId)} else {})
      && t'.directConversations == t.directConversations
      && t'.conversations == if cut == 0 then t.conversations
           else var row := t.conversations[c];
                t.conversations[c := row.(participants := row.participants + [p], updatedAt := now)]
  {
    var write, u := WriteParticipants(c, t.conversations[c].participants + [p], Some(now)), p.userId;
    assert InsertIndexes(c, [u]) == [InsertForward(u, c), InsertReverse(c, u)] by { assert [u][..0] == []; }
    assert AddScript(c, t.conversations[c].participants, p, now) ==
           [write] + [InsertForward(u, c), InsertReverse(c, u)];
    var row := t.conversations[c].(participants := t.conversations[c].participants + [p], updatedAt := now);
    var t1 := t.(conversations := t.conversations[c := row]);
    var t2 := t1.(userConversations := t.userConversations + {(u, c)});
    assert Execute(write, t) == t1;
    assert Execute(InsertForward(u, c), t1) == t2;
    assert Execute(InsertReverse(c, u), t2) == t2.(conversationParticipants := t.conversationParticipants + {(c, u)});
    RunUpToThree(write, InsertForward(u, c), InsertReverse(c, u), cut, t);
  }

  /** An AddParticipant cut off after its first write leaves the user in the blob, so the service
      refuses to run it again; a later Update puts things right unless the cut fell between the
      two index writes and the Update does not want the user. */
  lemma CutOffAdd(c: Id, p: Participant, now: int, cut: nat, t: Tables, wanted: set<Id>)
    requires cut <= 3 && Agrees(t, c) && c in t.conversations
    requires p.userId !in Members(t.conversations[c].participants)
    ensures var t' := AfterAdd(c, p, now, cut, t);
      && (Agrees(t', c) <==> cut == 0 || cut == 3)
      && c in t'.conversations
      && (cut >= 1 ==> p.userId in Members(t'.conversations[c].participants))
      && (Repairable(t', c, wanted) <==> cut != 2 || p.userId in wanted)
  {
    AddPrefix(c, p, now, cut, t);
    MembersOfAppend(t.conversations[c].participants, p);
    var t', u := AfterAdd(c, p, now, cut, t), p.userId;
    assert AgreesOn(t, c, u);
    forall v | v != u ensures AgreesOn(t', c, v) { assert AgreesOn(t, c, v); }
    assert AgreesOn(t', c, u) <==> cut == 0 || cut == 3;
    if cut != 2 || u in wanted {
      forall v ensures v in wanted && (c, v) in t'.conversationParticipants ==> (v, c) in t'.userConversations {
        assert AgreesOn(t, c, v);
      }
      forall v ensures v !in wanted && (v, c) in t'.userConversations ==> (c, v) in t'.conversationParticipants {
        assert AgreesOn(t, c, v);
      }
    }
  }

  // ---- runs without failures ----

  datatype Operation =
    | Create(row: Row)
    | Update(newRow: Row, added: seq<Id>, removed: seq<Id>)
    | AddParticipant(conversationId: Id, participant: Participant, now: int)
    | RemoveParticipant(conversationId: Id, user: Id, now: int)
    | UpdateReadCursor(conversationId: Id, user: Id, messageId: Id, readAt: int)
    | UpdateLastMessage(conversationId: Id, lastMessage: LastMessage)

  /** The statements an operation sends when it starts in state t and nothing fails. */
  function Script(op: Operation, t: Tables): seq<Statement> {
    match op
    case Create(row) =>
      if Claims(row) && RowKey(row) in t.directConversations then [ClaimKey(RowKey(row), row.id)]
      else CreateScript(row)
    case Update(row, added, removed) => UpdateScript(row, added, removed)
    case AddParticipant(c, p, now) =>
      if c in t.conversations then AddScript(c, t.conversations[c].participants, p, now) else []
    case RemoveParticipant(c, u, now) =>
      if c in t.conversations then RemoveScript(c, t.conversations[c].participants, u, now) else []
    case UpdateReadCursor(c, u, m, at) =>
      if c in t.conversations && u in Ids(t.conversations[c].participants)
      then [WriteParticipants(c, MarkRead(t.conversations[c].participants, u, m, at), None)] else []
    case UpdateLastMessage(c, m) => [WriteLastMessage(c, m)]
  }

  function AfterOperation(op: Operation, t: Tables): Tables {
    Run(Script(op, t), t)
  }

  /** An operation that was not cut off has run its whole script. */
  lemma UncutIsOperation(c: Id, p: Participant, user: Id, now: int, t: Tables)
    ensures AfterAdd(c, p, now, 3, t) == AfterOperation(AddParticipant(c, p, now), t)
    ensures AfterRemoval(Removal(now, 3), c, user, t) == AfterOperation(RemoveParticipant(c, user, now), t)
  {
    if c in t.conversations {
      var ps := t.conversations[c].participants;
      var add, remove := AddScript(c, ps, p, now), RemoveScript(c, ps, user, now);
      assert |add| == 3 && add[..3] == add && |remove| == 3 && remove[..3] == remove;
    }
  }

  /** Create is given a new id; Update finds the participant sets in some order; the last message
      is only written for a conversation that was just read. */
  ghost predicate Allowed(op: Operation, t: Tables) {
    match op
    case Create(row) => row.id !in t.conversations
    case Update(row, added, removed) =>
      && Lists(added, Members(row.participants) - Indexed(t, row.id))
      && Lists(removed, Indexed(t, row.id) - Members(row.participants))
    case UpdateLastMessage(c, m) => c in t.conversations
    case _ => true
  }

  function About(op: Operation): Id {
    match op
    case Create(row) => row.id
    case Update(row, _, _) => row.id
    case _ => op.conversationId
  }

  lemma CreateRun(row: Row, t: Tables)
    requires Claims(row) ==> RowKey(row) !in t.directConversations
    ensures Run(CreateScript(row), t) ==
      Tables(t.conversations[row.id := row],
             t.userConversations + Forward(row.id, Members(row.participants)),
             t.conversationParticipants + Reverse(row.id, Members(row.participants)),
             if Claims(row) then t.directConversations[RowKey(row) := row.id] else t.directConversations)
  {
    var claim := if Claims(row) then [ClaimKey(RowKey(row), row.id)] else [];
    var rest := [WriteRow(row)] + InsertIndexes(row.id, Ids(row.participants));
    assert CreateScript(row) == claim + rest;
    RunConcat(claim, rest, t);
    if Claims(row) { RunOne(ClaimKey(RowKey(row), row.id), t); }
    var t1 := Run(claim, t);
    RunConcat([WriteRow(row)], InsertIndexes(row.id, Ids(row.participants)), t1);
    RunOne(WriteRow(row), t1);
    var t2 := Execute(WriteRow(row), t1);
    var script := InsertIndexes(row.id, Ids(row.participants));
    var f, r := InsertPrefix(row.id, Ids(row.participants), |script|, t2);
    assert script[..|script|] == script;
  }

  lemma OperationKeepsAgreement(op: Operation, t: Tables)
    requires AllAgree(t) && Allowed(op, t)
    ensures AllAgree(AfterOperation(op, t))
  {
    var c, t' := About(op), AfterOperation(op, t);
    assert Agrees(t, c);
    assert Agrees(t', c) && OnlyTouches(t, t', c) by {
      match op
      case Create(row) => CreateAgrees(row, t);
      case Update(row, added, removed) =>
        UpdateAgrees(row, added, removed, t);
      case AddParticipant(_, p, now) => AddAgrees(c, p, now, t);
      case RemoveParticipant(_, u, now) =>
        if c in t.conversations {
          FinishedRemovalAgreesIff(Removal(now, 3), c, u, t);
          RemovalKeepsOthers(Removal(now, 3), c, u, t);
          UncutIsOperation(c, Participant(u, Member, 0, "", 0), u, now, t);
        }
      case UpdateReadCursor(_, u, m, at) =>
        if Script(op, t) != [] {
          RunOne(Script(op, t)[0], t);
          BlobWriteAgrees(t, t', c);
        }
      case UpdateLastMessage(_, m) =>
        RunOne(WriteLastMessage(c, m), t);
        BlobWriteAgrees(t, t', c);
    }
    forall d ensures Agrees(t', d) {
      assert Agrees(t, d);
      if d != c { OthersStillAgree(t, t', c, d); }
    }
  }

  lemma UpdateAgrees(row: Row, added: seq<Id>, removed: seq<Id>, t: Tables)
    requires Agrees(t, row.id) && Allowed(Update(row, added, removed), t)
    ensures var t' := Run(UpdateScript(row, added, removed), t); Agrees(t', row.id) && OnlyTouches(t, t', row.id)
  {
    var script := UpdateScript(row, added, removed);
    var a := Attempt(added, removed, |script|);
    var none: seq<Attempt> := [];
    assert script[..a.cut] == script;
    assert [a][..0] == none;
    assert AreAttempts(none, row, t) && AfterAttempts(none, row, t) == t;
    assert AreAttempts([a], row, t) && AfterAttempts([a], row, t) == AfterAttempt(a, row, t);
    UpdateConverges([a], row, t);
  }

  lemma BlobWriteAgrees(t: Tables, t': Tables, c: Id)
    requires Agrees(t, c) && c in t.conversations && c in t'.conversations
    requires Members(t'.conversations[c].participants) == Members(t.conversations[c].participants)
    requires t'.userConversations == t.userConversations && t'.conversationParticipants == t.conversationParticipants
    ensures Agrees(t', c)
  {
    forall u ensures AgreesOn(t', c, u) { assert AgreesOn(t, c, u); }
  }

  lemma CreateAgrees(row: Row, t: Tables)
    requires Agrees(t, row.id) && row.id !in t.conversations
    ensures var t' := AfterOperation(Create(row), t); Agrees(t', row.id) && OnlyTouches(t, t', row.id)
  {
    if Claims(row) && RowKey(row) in t.directConversations {
      RunOne(ClaimKey(RowKey(row), row.id), t);
    } else {
      CreateRun(row, t);
      var t' := AfterOperation(Create(row), t);
      forall u ensures AgreesOn(t', row.id, u) { assert AgreesOn(t, row.id, u); }
    }
  }

  lemma CreateStores(row: Row, t: Tables)
    requires row.id !in t.conversations && (Claims(row) ==> RowKey(row) !in t.directConversations)
    ensures var t' := Run(CreateScript(row), t);
      row.id in t'.conversations && t'.conversations[row.id] == row && (Agrees(t, row.id) ==> Agrees(t', row.id))
  {
    CreateRun(row, t);
    if Agrees(t, row.id) { CreateAgrees(row, t); }
  }

  lemma AddAgrees(c: Id, p: Participant, now: int, t: Tables)
    requires Agrees(t, c)
    ensures var t' := AfterOperation(AddParticipant(c, p, now), t); Agrees(t', c) && OnlyTouches(t, t', c)
  {
    if c in t.conversations {
      UncutIsOperation(c, p, p.userId, now, t);
      AddPrefix(c, p, now, 3, t);
      MembersOfAppend(t.conversations[c].participants, p);
      var t' := AfterOperation(AddParticipant(c, p, now), t);
      forall u ensures AgreesOn(t', c, u) { assert AgreesOn(t, c, u); }
    }
  }

  // ---- participant lists within their limits ----

  /** No user twice, and not more than a group may have. */
  ghost predicate WithinLimits(ps: seq<Participant>) {
    Distinct(Ids(ps)) && |ps| <= MAX_GROUP_PARTICIPANTS
  }

  ghost predicate AllWithinLimits(t: Tables) {
    forall c :: c in t.conversations ==> WithinLimits(t.conversations[c].participants)
  }

  ghost predicate WritesWithinLimits(s: Statement) {
    match s
    case WriteRow(row) => WithinLimits(row.participants)
    case WriteParticipants(_, ps, _) => WithinLimits(ps)
    case _ => true
  }

  lemma {:induction false} RunKeepsLimits(script: seq<Statement>, t: Tables)
    requires AllWithinLimits(t) && forall i :: 0 <= i < |script| ==> WritesWithinLimits(script[i])
    ensures AllWithinLimits(Run(script, t))
    decreases |script|
  {
    if script == [] {
    } else {
      RunKeepsLimits(script[..|script| - 1], t);
      assert WritesWithinLimits(script[|script| - 1]);
    }
  }

  lemma {:induction false} IndexesWriteNoRow(c: Id, users: seq<Id>)
    ensures forall i :: 0 <= i < |InsertIndexes(c, users)| ==> WritesWithinLimits(InsertIndexes(c, users)[i])
    ensures forall i :: 0 <= i < |DeleteIndexes(c, users)| ==> WritesWithinLimits(DeleteIndexes(c, users)[i])
    decreases |users|
  {
    if users == [] {
    } else {
      IndexesWriteNoRow(c, users[..|users| - 1]);
    }
  }

  /** An add keeps the limits, cut off or not, if the list had room and did not have the user. */
  lemma AddKeepsLimits(c: Id, p: Participant, now: int, cut: nat, t: Tables)
    requires cut <= 3 && AllWithinLimits(t)
    requires c in t.conversations ==> p.userId !in Members(t.conversations[c].participants)
                                      && |t.conversations[c].participants| < MAX_GROUP_PARTICIPANTS
    ensures AllWithinLimits(AfterAdd(c, p, now, cut, t))
  {
    if c in t.conversations {
      var ps := t.conversations[c].participants;
      MembersOfAppend(ps, p);
      assert WithinLimits(ps + [p]) by { assert p.userId !in Members(ps); }
      IndexesWriteNoRow(c, [p.userId]);
      RunKeepsLimits(AddScript(c, ps, p, now)[..cut], t);
    }
  }

  lemma RemovalKeepsLimits(r: Removal, c: Id, user: Id, t: Tables)
    requires r.cut <= 3 && AllWithinLimits(t)
    ensures AllWithinLimits(AfterRemoval(r, c, user, t))
  {
    if c in t.conversations {
      var ps := t.conversations[c].participants;
      WithoutMembers(ps, user);
      IndexesWriteNoRow(c, [user]);
      RunKeepsLimits(RemoveScript(c, ps, user, r.now)[..r.cut], t);
    }
  }

  lemma CreateKeepsLimits(row: Row, cut: nat, t: Tables)
    requires cut <= |CreateScript(row)| && AllWithinLimits(t) && WithinLimits(row.participants)
    ensures AllWithinLimits(Run(CreateScript(row)[..cut], t))
  {
    IndexesWriteNoRow(row.id, Ids(row.participants));
    RunKeepsLimits(CreateScript(row)[..cut], t);
  }

  lemma ReadCursorKeepsLimits(c: Id, user: Id, messageId: Id, readAt: int, t: Tables)
    requires AllWithinLimits(t)
    ensures AllWithinLimits(AfterOperation(Operation.UpdateReadCursor(c, user, messageId, readAt), t))
  {
    if c in t.conversations {
      var ps := t.conversations[c].participants;
      assert |MarkRead(ps, user, messageId, readAt)| == |Ids(ps)|;
      assert WithinLimits(MarkRead(ps, user, messageId, readAt));
    }
    RunKeepsLimits(Script(Operation.UpdateReadCursor(c, user, messageId, readAt), t), t);
  }

  lemma LastMessageKeepsLimits(c: Id, m: LastMessage, t: Tables)
    requires AllWithinLimits(t)
    ensures AllWithinLimits(Execute(WriteLastMessage(c, m), t))
  { }

  ghost predicate IsRun(ops: seq<Operation>, t: Tables)
    decreases |ops|, 1
  {
    ops == [] || (IsRun(ops[..|ops| - 1], t) && Allowed(ops[|ops| - 1], AfterRun(ops[..|ops| - 1], t)))
  }

  function AfterRun(ops: seq<Operation>, t: Tables): Tables
    decreases |ops|, 0
  {
    if ops == [] then t
    else AfterOperation(ops[|ops| - 1], AfterRun(ops[..|ops| - 1], t))
  }

  /** Every run of the six operations keeps them in agreement. */
  lemma {:induction false} RunKeepsAgreement(ops: seq<Operation>, t: Tables)
    requires AllAgree(t) && IsRun(ops, t)
    ensures AllAgree(AfterRun(ops, t))
    decreases |ops|
  {
    if ops == [] {
    } else {
      RunKeepsAgreement(ops[..|ops| - 1], t);
      OperationKeepsAgreement(ops[|ops| - 1], AfterRun(ops[..|ops| - 1], t));
    }
  }

  const EMPTY := Tables(map[], {}, {}, map[])

  /** After every run of the six operations, started on empty tables, the participants blob and
      both indexes say the same about every conversation and every user. */
  lemma RunsAgree(ops: seq<Operation>, c: Id, u: Id)
    requires IsRun(ops, EMPTY)
    ensures var t := AfterRun(ops, EMPTY);
      var isListed := c in t.conversations && u in Members(t.conversations[c].participants);
      && (isListed <==> (u, c) in t.userConversations)
      && (isListed <==> (c, u) in t.conversationParticipants)
  {
    EmptyTablesAgree();
    RunKeepsAgreement(ops, EMPTY);
    assert Agrees(AfterRun(ops, EMPTY), c) && AgreesOn(AfterRun(ops, EMPTY), c, u);
  }

  lemma EmptyTablesAgree()
    ensures AllAgree(EMPTY)
  {
    forall c, u ensures AgreesOn(EMPTY, c, u) { }
  }
}
