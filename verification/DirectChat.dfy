/** CreateDirectChat as a protocol (internal/service/create_conversation.go over
    internal/adapter/repository/conversation_repo.go): any number of calls, each statement a step of
    its own, any statement failing with or without effect, and other requests rewriting rows and
    indexes in between. */
module DirectChat {
  import opened Basics
  import opened Conversations
  import opened ConversationStore
  import TextKeys

  datatype Phase =
    | Begin                          // about to look the pair up
    | Found(id: Id)                  // the key is claimed by id; its row is still to be read
    | Missed                         // the lookup found nothing, or failed
    | Writing(row: Row, sent: nat)   // that many statements of Create have succeeded
    | Returned(conversation: Id)
    | Failed

  /** clean: no statement of the call has failed so far. */
  datatype Call = Call(user1: Id, user2: Id, phase: Phase, clean: bool)

  /** made remembers for which users each new id was drawn, others the ids of group conversations. */
  datatype State = State(t: Tables, calls: map<nat, Call>, made: map<Id, (Id, Id)>, others: set<Id>)

  datatype Step =
    | Start(p: nat, user1: Id, user2: Id)
    | Lookup(p: nat, fate: Fate)
    | ReadRow(p: nat, fate: Fate)
    | NewId(p: nat, id: Id, now: int)
    | Send(p: nat, fate: Fate)
    | Other(row: Row, forward: set<(Id, Id)>, reverse: set<(Id, Id)>)

  function Key(c: Call): string {
    TextKeys.DirectKey(c.user1, c.user2)
  }

  function Pair(c: Call): set<Id> {
    {c.user1, c.user2}
  }

  ghost predicate Enabled(e: Step, s: State) {
    match e
    case Start(p, _, _) => p !in s.calls
    case Lookup(p, _) => p in s.calls && s.calls[p].phase.Begin?
    case ReadRow(p, _) => p in s.calls && s.calls[p].phase.Found?
    case NewId(p, id, _) => p in s.calls && s.calls[p].phase.Missed? && id !in s.made && id !in s.others
    case Send(p, _) =>
      && p in s.calls && s.calls[p].phase.Writing?
      && s.calls[p].phase.sent < |CreateScript(s.calls[p].phase.row)|
    // Another request may create a group, or rewrite an existing row keeping its type; of the two
    // users of a direct chat it can only drop some, because the domain refuses to add any.
    case Other(row, _, _) =>
      if row.id in s.t.conversations
      then row.kind == s.t.conversations[row.id].kind
        && (row.kind == Direct && row.id in s.made ==>
              Members(row.participants) <= {s.made[row.id].0, s.made[row.id].1})
      else row.kind == Group && row.id !in s.made
  }

  function SetPhase(s: State, p: nat, phase: Phase, clean: bool): State
    requires p in s.calls
  {
    s.(calls := s.calls[p := s.calls[p].(phase := phase, clean := s.calls[p].clean && clean)])
  }

  function Apply(e: Step, s: State): State
    requires Enabled(e, s)
  {
    match e
    case Start(p, u1, u2) => s.(calls := s.calls[p := Call(u1, u2, if u1 == u2 then Failed else Begin, true)])
    case Lookup(p, fate) =>
      var key := Key(s.calls[p]);
      if fate == Done && key in s.t.directConversations
      then SetPhase(s, p, Found(s.t.directConversations[key]), true)
      else SetPhase(s, p, Missed, fate == Done)
    case ReadRow(p, fate) =>
      var id := s.calls[p].phase.id;
      if fate == Done && id in s.t.conversations then SetPhase(s, p, Returned(id), true)
      else SetPhase(s, p, Missed, fate == Done)
    case NewId(p, id, now) =>
      var c := s.calls[p];
      var row := NewDirectConversation(id, c.user1, c.user2, now);
      SetPhase(s, p, Writing(row, 0), true).(made := s.made[id := (c.user1, c.user2)])
    case Send(p, fate) =>
      var Writing(row, n) := s.calls[p].phase;
      var statement := CreateScript(row)[n];
      var refusedClaim := statement.ClaimKey? && statement.key in s.t.directConversations;
      var s' := if fate == Refused then s else s.(t := Execute(statement, s.t));
      if fate != Done then SetPhase(s', p, Failed, false)
      else if refusedClaim then SetPhase(s', p, Failed, true)
      else if n + 1 == |CreateScript(row)| then SetPhase(s', p, Returned(row.id), true)
      else SetPhase(s', p, Writing(row, n + 1), true)
    case Other(row, forward, reverse) =>
      s.(t := s.t.(conversations := s.t.conversations[row.id := row], userConversations := forward,
                   conversationParticipants := reverse),
         others := if row.id in s.t.conversations then s.others else s.others + {row.id})
  }

  ghost predicate IsRun(es: seq<Step>, s: State)
    decreases |es|, 1
  {
    es == [] || (IsRun(es[..|es| - 1], s) && Enabled(es[|es| - 1], After(es[..|es| - 1], s)))
  }

  ghost function After(es: seq<Step>, s: State): State
    requires IsRun(es, s)
    decreases |es|, 2
  {
    if es == [] then s else Apply(es[|es| - 1], After(es[..|es| - 1], s))
  }

  const INITIAL := State(EMPTY, map[], map[], {})

  // ---- the invariant ----

  ghost predicate KeysOk(s: State) {
    forall k :: k in s.t.directConversations ==>
      var c := s.t.directConversations[k];
      c in s.made && TextKeys.DirectKey(s.made[c].0, s.made[c].1) == k
  }

  ghost predicate ClaimedBy(s: State, key: string, c: Id) {
    key in s.t.directConversations && s.t.directConversations[key] == c
  }

  ghost predicate RowOk(s: State, c: Id)
    requires c in s.t.conversations
  {
    var row := s.t.conversations[c];
    if row.kind == Direct
    then c in s.made && Members(row.participants) <= {s.made[c].0, s.made[c].1}
         && ClaimedBy(s, TextKeys.DirectKey(s.made[c].0, s.made[c].1), c)
    else c in s.others
  }

  /** The row a call is writing is the new conversation of its two users. */
  ghost predicate OwnRow(row: Row, c: Call) {
    && row.kind == Direct && Claims(row) && RowKey(row) == Key(c)
    && Members(row.participants) == Pair(c)
  }

  ghost predicate CallOk(s: State, c: Call) {
    match c.phase
    case Begin => c.user1 != c.user2
    case Missed => c.user1 != c.user2
    case Found(id) => c.user1 != c.user2 && ClaimedBy(s, Key(c), id)
    case Writing(row, n) =>
      && c.user1 != c.user2 && OwnRow(row, c) && n < |CreateScript(row)|
      && row.id in s.made && s.made[row.id] == (c.user1, c.user2)
      && (n >= 1 ==> ClaimedBy(s, Key(c), row.id))
      && (n >= 2 ==> row.id in s.t.conversations)
    case Returned(id) => ClaimedBy(s, Key(c), id) && id in s.t.conversations
    case Failed => true
  }

  ghost predicate Inv(s: State) {
    && KeysOk(s)
    && (forall c :: c in s.t.conversations ==> RowOk(s, c))
    && (forall p :: p in s.calls ==> CallOk(s, s.calls[p]))
    && (forall c :: c in s.others ==> c !in s.made)
    && WritersOk(s)
  }

  ghost predicate IsWriter(s: State, p: nat, c: Id) {
    p in s.calls && s.calls[p].phase.Writing? && s.calls[p].phase.row.id == c
  }

  /** What a call has still to write is not there yet: no key is claimed for its id before the first
      statement, and no row is there before the second. */
  ghost predicate Unwritten(s: State, p: nat) {
    p in s.calls && s.calls[p].phase.Writing? ==>
      var Writing(row, n) := s.calls[p].phase;
      && (n == 0 ==> forall k :: k in s.t.directConversations ==> s.t.directConversations[k] != row.id)
      && (n <= 1 ==> row.id !in s.t.conversations)
  }

  /** No two calls write under one id. */
  ghost predicate WritersOk(s: State) {
    && (forall p, q, c :: IsWriter(s, p, c) && IsWriter(s, q, c) ==> p == q)
    && (forall p :: Unwritten(s, p))
  }

  /** What no step undoes: a claim stays with its conversation and a row stays. */
  ghost predicate Grows(s: State, s': State) {
    && (forall k :: k in s.t.directConversations ==> ClaimedBy(s', k, s.t.directConversations[k]))
    && s.t.conversations.Keys <= s'.t.conversations.Keys
    && (forall c :: c in s.made ==> c in s'.made && s'.made[c] == s.made[c])
  }

  lemma CallOkGrows(s: State, s': State, c: Call)
    requires CallOk(s, c) && Grows(s, s')
    ensures CallOk(s', c)
  { }

  lemma CreateScriptShape(row: Row)
    requires Claims(row)
    ensures |CreateScript(row)| >= 3
    ensures CreateScript(row)[0] == ClaimKey(RowKey(row), row.id) && CreateScript(row)[1] == WriteRow(row)
    ensures forall i :: 2 <= i < |CreateScript(row)| ==>
              CreateScript(row)[i].InsertForward? || CreateScript(row)[i].InsertReverse?
  {
    OnlyInserts(row.id, Ids(row.participants));
    assert CreateScript(row)[2..] == InsertIndexes(row.id, Ids(row.participants));
    forall i | 2 <= i < |CreateScript(row)|
      ensures CreateScript(row)[i].InsertForward? || CreateScript(row)[i].InsertReverse?
    {
      assert CreateScript(row)[i] == InsertIndexes(row.id, Ids(row.participants))[i - 2];
    }
  }

  lemma {:induction false} OnlyInserts(c: Id, users: seq<Id>)
    ensures forall i :: 0 <= i < |InsertIndexes(c, users)| ==>
              InsertIndexes(c, users)[i].InsertForward? || InsertIndexes(c, users)[i].InsertReverse?
    decreases |users|
  {
    if users == [] {
    } else {
      OnlyInserts(c, users[..|users| - 1]);
    }
  }

  /** What the n-th statement of Create does to claims and rows. */
  lemma SendEffect(row: Row, n: nat, t: Tables)
    requires Claims(row) && n < |CreateScript(row)|
    ensures var t' := Execute(CreateScript(row)[n], t);
      && t'.directConversations == (if n == 0 && RowKey(row) !in t.directConversations
                                    then t.directConversations[RowKey(row) := row.id] else t.directConversations)
      && t'.conversations == if n == 1 then t.conversations[row.id := row] else t.conversations
    ensures CreateScript(row)[n].ClaimKey? <==> n == 0
    ensures n == 0 ==> CreateScript(row)[n].key == RowKey(row)
    ensures |CreateScript(row)| >= 3
  {
    CreateScriptShape(row);
  }

  /** From s to s' the n-th statement of c's Create was sent, and may have taken effect. */
  ghost predicate Sent(s: State, s': State, c: Call) {
    && c.phase.Writing? && CallOk(s, c)
    && s'.made == s.made && s'.others == s.others
    && (s'.t.directConversations == s.t.directConversations
        || (c.phase.sent == 0 && Key(c) !in s.t.directConversations
            && s'.t.directConversations == s.t.directConversations[Key(c) := c.phase.row.id]))
    && (s'.t.conversations == s.t.conversations
        || (c.phase.sent == 1 && s'.t.conversations == s.t.conversations[c.phase.row.id := c.phase.row]))
  }

  lemma SentKeepsClaims(s: State, s': State, c: Call)
    requires KeysOk(s) && Sent(s, s', c)
    ensures KeysOk(s') && Grows(s, s')
  { }

  lemma SentKeepsRows(s: State, s': State, c: Call)
    requires Sent(s, s', c) && Grows(s, s') && forall d :: d in s.t.conversations ==> RowOk(s, d)
    ensures forall d :: d in s'.t.conversations ==> RowOk(s', d)
  {
    var row := c.phase.row;
    forall d | d in s'.t.conversations ensures RowOk(s', d) {
      if s'.t.conversations == s.t.conversations || d != row.id {
        assert RowOk(s, d);
      } else {
        assert ClaimedBy(s, Key(c), row.id) && ClaimedBy(s', Key(c), row.id);
      }
    }
  }

  lemma SendIsSent(e: Step, s: State)
    requires Inv(s) && e.Send? && Enabled(e, s)
    ensures Sent(s, Apply(e, s), s.calls[e.p])
  {
    assert CallOk(s, s.calls[e.p]);
    SendEffect(s.calls[e.p].phase.row, s.calls[e.p].phase.sent, s.t);
  }

  /** The call itself, after its statement. */
  lemma SenderStaysOk(e: Step, s: State)
    requires Inv(s) && e.Send? && Enabled(e, s)
    ensures CallOk(Apply(e, s), Apply(e, s).calls[e.p])
  {
    assert CallOk(s, s.calls[e.p]);
    SendEffect(s.calls[e.p].phase.row, s.calls[e.p].phase.sent, s.t);
  }

  lemma SendKeepsInv(e: Step, s: State)
    requires Inv(s) && e.Send? && Enabled(e, s)
    ensures Inv(Apply(e, s)) && Grows(s, Apply(e, s))
  {
    var s', c := Apply(e, s), s.calls[e.p];
    SendIsSent(e, s);
    SenderStaysOk(e, s);
    SentKeepsClaims(s, s', c);
    SentKeepsRows(s, s', c);
    OthersKeepOk(s, s', e.p);
    SendKeepsWriters(e, s);
  }

  lemma SendKeepsWriters(e: Step, s: State)
    requires WritersOk(s) && e.Send? && Enabled(e, s) && CallOk(s, s.calls[e.p])
    ensures WritersOk(Apply(e, s))
  {
    var s' := Apply(e, s);
    forall p, c ensures IsWriter(s', p, c) ==> IsWriter(s, p, c) {
      if p != e.p { OtherCallsStay(e, s, p); }
    }
    SenderStaysUnwritten(e, s);
    forall p | p != e.p ensures Unwritten(s', p) { OthersStayUnwritten(e, s, p); }
  }

  lemma SenderStaysUnwritten(e: Step, s: State)
    requires WritersOk(s) && e.Send? && Enabled(e, s) && CallOk(s, s.calls[e.p])
    ensures Unwritten(Apply(e, s), e.p)
  {
    assert Unwritten(s, e.p);
    SendEffect(s.calls[e.p].phase.row, s.calls[e.p].phase.sent, s.t);
  }

  lemma OthersStayUnwritten(e: Step, s: State, p: nat)
    requires WritersOk(s) && e.Send? && Enabled(e, s) && CallOk(s, s.calls[e.p]) && p != e.p
    ensures Unwritten(Apply(e, s), p)
  {
    var row := s.calls[e.p].phase.row;
    SendEffect(row, s.calls[e.p].phase.sent, s.t);
    OtherCallsStay(e, s, p);
    assert IsWriter(s, e.p, row.id) && Unwritten(s, p);
    if p in s.calls && s.calls[p].phase.Writing? { assert IsWriter(s, p, s.calls[p].phase.row.id); }
  }

  /** What another call relies on survives every step. */
  lemma OthersKeepOk(s: State, s': State, p: nat)
    requires Grows(s, s') && forall q :: q in s.calls ==> CallOk(s, s.calls[q])
    requires p in s'.calls && s'.calls == s.calls[p := s'.calls[p]] && CallOk(s', s'.calls[p])
    ensures forall q :: q in s'.calls ==> CallOk(s', s'.calls[q])
  {
    forall q | q in s'.calls ensures CallOk(s', s'.calls[q]) {
      if q != p { CallOkGrows(s, s', s.calls[q]); }
    }
  }

  lemma NewIdKeepsInv(e: Step, s: State)
    requires Inv(s) && e.NewId? && Enabled(e, s)
    ensures Inv(Apply(e, s)) && Grows(s, Apply(e, s))
  {
    var s', c := Apply(e, s), s.calls[e.p];
    DirectConversationIsSymmetric(e.id, c.user1, c.user2, e.now);
    CreateScriptShape(s'.calls[e.p].phase.row);
    forall d | d in s'.t.conversations ensures RowOk(s', d) { assert RowOk(s, d); }
    OthersKeepOk(s, s', e.p);
    NewIdKeepsWriters(e, s);
  }

  lemma NewIdKeepsWriters(e: Step, s: State)
    requires Inv(s) && e.NewId? && Enabled(e, s)
    ensures WritersOk(Apply(e, s))
  {
    var s' := Apply(e, s);
    forall d | d in s.t.conversations ensures d in s.made || d in s.others { assert RowOk(s, d); }
    forall p, c ensures IsWriter(s', p, c) ==> (p == e.p && c == e.id) || (p != e.p && IsWriter(s, p, c) && c != e.id) {
      if p != e.p && p in s.calls { assert CallOk(s, s.calls[p]); }
    }
    forall p ensures Unwritten(s', p) { assert Unwritten(s, p); }
  }

  /** A call that starts or reads leaves every table alone. */
  lemma ReadKeepsInv(e: Step, s: State)
    requires Inv(s) && (e.Start? || e.Lookup? || e.ReadRow?) && Enabled(e, s)
    ensures Inv(Apply(e, s)) && Grows(s, Apply(e, s))
  {
    var s' := Apply(e, s);
    ReaderStaysOk(e, s);
    forall d | d in s'.t.conversations ensures RowOk(s', d) { assert RowOk(s, d); }
    OthersKeepOk(s, s', e.p);
    ReadKeepsWriters(e, s);
  }

  lemma ReaderStaysOk(e: Step, s: State)
    requires Inv(s) && (e.Start? || e.Lookup? || e.ReadRow?) && Enabled(e, s)
    ensures var s' := Apply(e, s);
      && s'.t == s.t && s'.made == s.made && s'.others == s.others
      && e.p in s'.calls && s'.calls == s.calls[e.p := s'.calls[e.p]] && CallOk(s', s'.calls[e.p])
  {
    if !e.Start? { assert CallOk(s, s.calls[e.p]); }
  }

  lemma ReadKeepsWriters(e: Step, s: State)
    requires WritersOk(s) && (e.Start? || e.Lookup? || e.ReadRow?) && Enabled(e, s)
    ensures WritersOk(Apply(e, s))
  {
    var s' := Apply(e, s);
    forall p, c ensures IsWriter(s', p, c) ==> IsWriter(s, p, c) { }
    forall p ensures Unwritten(s', p) { assert Unwritten(s, p); }
  }

  lemma OtherKeepsInv(e: Step, s: State)
    requires Inv(s) && e.Other? && Enabled(e, s)
    ensures Inv(Apply(e, s)) && Grows(s, Apply(e, s))
  {
    var s' := Apply(e, s);
    forall d | d in s'.t.conversations ensures RowOk(s', d) {
      if d in s.t.conversations { assert RowOk(s, d); }
    }
    forall p | p in s'.calls ensures CallOk(s', s'.calls[p]) { CallOkGrows(s, s', s.calls[p]); }
    forall p, c ensures IsWriter(s', p, c) ==> IsWriter(s, p, c) { }
    forall p ensures Unwritten(s', p) {
      assert Unwritten(s, p);
      if p in s.calls { assert CallOk(s, s.calls[p]); }
    }
  }

  lemma StepKeepsInv(e: Step, s: State)
    requires Inv(s) && Enabled(e, s)
    ensures Inv(Apply(e, s)) && Grows(s, Apply(e, s))
  {
    match e
    case Send(_, _) => SendKeepsInv(e, s);
    case NewId(_, _, _) => NewIdKeepsInv(e, s);
    case Other(_, _, _) => OtherKeepsInv(e, s);
    case Start(_, _, _) => ReadKeepsInv(e, s);
    case Lookup(_, _) => ReadKeepsInv(e, s);
    case ReadRow(_, _) => ReadKeepsInv(e, s);
  }

  lemma {:induction false} RunKeepsInv(es: seq<Step>, s: State)
    requires Inv(s) && IsRun(es, s)
    ensures Inv(After(es, s)) && Grows(s, After(es, s))
    decreases |es|
  {
    if es == [] {
    } else {
      RunKeepsInv(es[..|es| - 1], s);
      StepKeepsInv(es[|es| - 1], After(es[..|es| - 1], s));
    }
  }

  // ---- what every interleaving guarantees ----

  lemma SamePairSameKey(a: Id, b: Id, c: Id, d: Id)
    requires {a, b} == {c, d}
    ensures TextKeys.DirectKey(a, b) == TextKeys.DirectKey(c, d)
  {
    assert a in {c, d} && b in {c, d} && c in {a, b} && d in {a, b};
    TextKeys.DirectKeySymmetric(a, b);
  }

  /** The users a direct conversation was made for. */
  ghost function MadeFor(s: State, c: Id): set<Id>
    requires c in s.made
  {
    {s.made[c].0, s.made[c].1}
  }

  /** Never two direct conversations made for the same two users, whoever has left them since. */
  lemma OneConversationPerPair(es: seq<Step>, c1: Id, c2: Id)
    requires IsRun(es, INITIAL)
    ensures var s := After(es, INITIAL);
      c1 in s.t.conversations && c2 in s.t.conversations
      && s.t.conversations[c1].kind == Direct && s.t.conversations[c2].kind == Direct
      ==> c1 in s.made && c2 in s.made
          && Members(s.t.conversations[c1].participants) <= MadeFor(s, c1)
          && (MadeFor(s, c1) == MadeFor(s, c2) ==> c1 == c2)
  {
    RunKeepsInv(es, INITIAL);
    var s := After(es, INITIAL);
    if c1 in s.t.conversations && c2 in s.t.conversations
       && s.t.conversations[c1].kind == Direct && s.t.conversations[c2].kind == Direct {
      assert RowOk(s, c1) && RowOk(s, c2);
      if MadeFor(s, c1) == MadeFor(s, c2) { SamePairSameKey(s.made[c1].0, s.made[c1].1, s.made[c2].0, s.made[c2].1); }
    }
  }

  /** In particular, never two whose participants are still the same two users. */
  lemma OneConversationOfTwo(es: seq<Step>, c1: Id, c2: Id, a: Id, b: Id)
    requires IsRun(es, INITIAL) && a != b
    ensures var t := After(es, INITIAL).t;
      c1 in t.conversations && c2 in t.conversations
      && t.conversations[c1].kind == Direct && Members(t.conversations[c1].participants) == {a, b}
      && t.conversations[c2].kind == Direct && Members(t.conversations[c2].participants) == {a, b}
      ==> c1 == c2
  {
    OneConversationPerPair(es, c1, c2);
    OneConversationPerPair(es, c2, c1);
    var s := After(es, INITIAL);
    if c1 in s.t.conversations && c2 in s.t.conversations
       && s.t.conversations[c1].kind == Direct && s.t.conversations[c2].kind == Direct {
      PairOfPair(a, b, s.made[c1].0, s.made[c1].1);
      PairOfPair(a, b, s.made[c2].0, s.made[c2].1);
    }
  }

  lemma PairOfPair(a: Id, b: Id, c: Id, d: Id)
    ensures a != b && {a, b} <= {c, d} ==> {a, b} == {c, d}
  {
    if a != b && {a, b} <= {c, d} { assert a in {c, d} && b in {c, d}; }
  }

  /** All calls for one pair that succeed return the same conversation, which exists ... */
  lemma SuccessfulCallsAgree(es: seq<Step>, p: nat, q: nat)
    requires IsRun(es, INITIAL)
    ensures var s := After(es, INITIAL);
      p in s.calls && q in s.calls && s.calls[p].phase.Returned? && s.calls[q].phase.Returned?
      && Pair(s.calls[p]) == Pair(s.calls[q])
      ==> s.calls[p].phase == s.calls[q].phase && s.calls[p].phase.conversation in s.t.conversations
  {
    RunKeepsInv(es, INITIAL);
    var s := After(es, INITIAL);
    if p in s.calls && q in s.calls && s.calls[p].phase.Returned? && s.calls[q].phase.Returned?
       && Pair(s.calls[p]) == Pair(s.calls[q]) {
      assert CallOk(s, s.calls[p]) && CallOk(s, s.calls[q]);
      SamePairSameKey(s.calls[p].user1, s.calls[p].user2, s.calls[q].user1, s.calls[q].user2);
    }
  }

  /** ... and when no user id has a colon, it was made for those two users. */
  lemma ReturnedConversationIsThePairs(es: seq<Step>, p: nat)
    requires IsRun(es, INITIAL)
    requires forall c :: c in After(es, INITIAL).made ==>
      ':' !in After(es, INITIAL).made[c].0 && ':' !in After(es, INITIAL).made[c].1
    ensures var s := After(es, INITIAL);
      p in s.calls && s.calls[p].phase.Returned? && ':' !in s.calls[p].user1 && ':' !in s.calls[p].user2
      ==> var id := s.calls[p].phase.conversation;
          id in s.made && {s.made[id].0, s.made[id].1} == Pair(s.calls[p])
  {
    RunKeepsInv(es, INITIAL);
    var s := After(es, INITIAL);
    if p in s.calls && s.calls[p].phase.Returned? && ':' !in s.calls[p].user1 && ':' !in s.calls[p].user2 {
      var c, id := s.calls[p], s.calls[p].phase.conversation;
      assert CallOk(s, c);
      TextKeys.DirectKeyInjective(s.made[id].0, s.made[id].1, c.user1, c.user2);
    }
  }

  /** Call q, if it is for the pair and has met no failure, is on its way to returning x. */
  ghost predicate Heading(s: State, q: nat, pair: set<Id>, x: Id) {
    q in s.calls && s.calls[q].clean && Pair(s.calls[q]) == pair && s.calls[q].user1 != s.calls[q].user2 ==>
      s.calls[q].phase in {Begin, Found(x), Returned(x)}
  }

  /** Once a call for a pair has succeeded, a later call for it that meets no failure can only
      return the same conversation: it never fails, creates or answers anything else. */
  lemma {:induction false} LaterCallReturnsSame(es: seq<Step>, s: State, p: nat, q: nat)
    requires Inv(s) && IsRun(es, s)
    requires p in s.calls && s.calls[p].phase.Returned?
    requires q in s.calls ==> s.calls[q].phase.Begin?
    ensures Heading(After(es, s), q, Pair(s.calls[p]), s.calls[p].phase.conversation)
    decreases |es|
  {
    if es == [] {
    } else {
      var before, e := es[..|es| - 1], es[|es| - 1];
      LaterCallReturnsSame(before, s, p, q);
      RunKeepsInv(before, s);
      assert CallOk(s, s.calls[p]);
      HeadingStep(e, After(before, s), q, s.calls[p].user1, s.calls[p].user2, s.calls[p].phase.conversation);
    }
  }

  lemma HeadingStep(e: Step, s: State, q: nat, a: Id, b: Id, x: Id)
    requires Inv(s) && Enabled(e, s) && Heading(s, q, {a, b}, x)
    requires ClaimedBy(s, TextKeys.DirectKey(a, b), x) && x in s.t.conversations
    ensures Heading(Apply(e, s), q, {a, b}, x)
  {
    if IsStepOf(e, q) {
      if q in s.calls && Pair(s.calls[q]) == {a, b} {
        SamePairSameKey(s.calls[q].user1, s.calls[q].user2, a, b);
        OwnStepHeads(e, s, x);
      }
    } else {
      OtherCallsStay(e, s, q);
    }
  }

  lemma OwnStepHeads(e: Step, s: State, x: Id)
    requires Enabled(e, s) && !e.Other? && e.p in s.calls
    requires ClaimedBy(s, Key(s.calls[e.p]), x) && x in s.t.conversations
    ensures var c, c' := s.calls[e.p], Apply(e, s).calls[e.p];
      && c'.user1 == c.user1 && c'.user2 == c.user2 && (c'.clean ==> c.clean)
      && (c'.clean && c.phase in {Begin, Found(x), Returned(x)} ==> c'.phase in {Found(x), Returned(x)})
  {
    match e
    case Lookup(_, _) =>
    case ReadRow(_, _) =>
    case NewId(_, _, _) =>
    case Send(_, _) =>
  }

  predicate IsStepOf(e: Step, q: nat) {
    !e.Other? && e.p == q
  }

  lemma OtherCallsStay(e: Step, s: State, q: nat)
    requires Enabled(e, s) && !IsStepOf(e, q)
    ensures q in Apply(e, s).calls <==> q in s.calls
    ensures q in s.calls ==> Apply(e, s).calls[q] == s.calls[q]
  { }

  // ---- a claim whose row was never written ----

  /** The key is claimed by c, c has no row, and no call is left that would write it. */
  ghost predicate Orphaned(s: State, key: string, c: Id) {
    && ClaimedBy(s, key, c) && c !in s.t.conversations
    && forall p :: p in s.calls && s.calls[p].phase.Writing? ==> s.calls[p].phase.row.id != c
  }

  lemma {:induction false} OrphanStays(es: seq<Step>, s: State, key: string, c: Id)
    requires Inv(s) && IsRun(es, s) && Orphaned(s, key, c)
    ensures Orphaned(After(es, s), key, c)
    decreases |es|
  {
    if es == [] {
    } else {
      var before := es[..|es| - 1];
      OrphanStays(before, s, key, c);
      RunKeepsInv(before, s);
      OrphanStep(es[|es| - 1], After(before, s), key, c);
    }
  }

  lemma OrphanStep(e: Step, s: State, key: string, c: Id)
    requires Inv(s) && Enabled(e, s) && Orphaned(s, key, c)
    ensures Orphaned(Apply(e, s), key, c)
  {
    StepKeepsInv(e, s);
    OrphanHasNoRow(e, s, key, c);
    forall p | p in Apply(e, s).calls && Apply(e, s).calls[p].phase.Writing?
      ensures Apply(e, s).calls[p].phase.row.id != c
    {
      OrphanHasNoWriter(e, s, key, c, p);
    }
  }

  lemma OrphanHasNoRow(e: Step, s: State, key: string, c: Id)
    requires Inv(s) && Enabled(e, s) && Orphaned(s, key, c)
    ensures c !in Apply(e, s).t.conversations
  {
    assert c in s.made;
    if e.Send? {
      assert CallOk(s, s.calls[e.p]);
      SendEffect(s.calls[e.p].phase.row, s.calls[e.p].phase.sent, s.t);
    }
  }

  lemma OrphanHasNoWriter(e: Step, s: State, key: string, c: Id, p: nat)
    requires Inv(s) && Enabled(e, s) && Orphaned(s, key, c)
    ensures p in Apply(e, s).calls && Apply(e, s).calls[p].phase.Writing? ==> Apply(e, s).calls[p].phase.row.id != c
  {
    assert c in s.made;
    if !IsStepOf(e, p) {
      OtherCallsStay(e, s, p);
    } else {
      match e
      case Start(_, _, _) =>
      case Lookup(_, _) =>
      case ReadRow(_, _) =>
      case NewId(_, _, _) =>
      case Send(_, _) =>
    }
  }

  /** The statement that leaves a claim behind: the claim itself when it took effect unnoticed, or
      the row after it when it did not take effect. */
  ghost predicate LeavesOrphan(e: Step, s: State, key: string, c: Id) {
    && e.Send? && IsWriter(s, e.p, c) && Key(s.calls[e.p]) == key
    && ((s.calls[e.p].phase.sent == 0 && e.fate == TimedOut && key !in s.t.directConversations)
        || (s.calls[e.p].phase.sent == 1 && e.fate == Refused))
  }

  /** In every interleaving, a key becomes orphaned at a step exactly when the step is of this kind. */
  lemma OrphanArisesIff(es: seq<Step>, e: Step, key: string, c: Id)
    requires IsRun(es, INITIAL) && Enabled(e, After(es, INITIAL)) && !Orphaned(After(es, INITIAL), key, c)
    ensures Orphaned(Apply(e, After(es, INITIAL)), key, c) <==> LeavesOrphan(e, After(es, INITIAL), key, c)
  {
    RunKeepsInv(es, INITIAL);
    var s := After(es, INITIAL);
    if e.Send? && IsWriter(s, e.p, c) {
      WriterLeavesOrphan(e, s, key, c);
    } else {
      OthersLeaveNoOrphan(e, s, key, c);
    }
  }

  /** A step of the call that writes c. */
  lemma WriterLeavesOrphan(e: Step, s: State, key: string, c: Id)
    requires Inv(s) && Enabled(e, s) && e.Send? && IsWriter(s, e.p, c)
    ensures Orphaned(Apply(e, s), key, c) <==> LeavesOrphan(e, s, key, c)
  {
    var s', row, n := Apply(e, s), s.calls[e.p].phase.row, s.calls[e.p].phase.sent;
    assert CallOk(s, s.calls[e.p]) && Unwritten(s, e.p);
    SendEffect(row, n, s.t);
    forall p | p != e.p ensures !IsWriter(s', p, c) {
      OtherCallsStay(e, s, p);
      assert !IsWriter(s, p, c);
    }
    if ClaimedBy(s, key, c) { assert key == Key(s.calls[e.p]); }
    assert Orphaned(s', key, c) <==> ClaimedBy(s', key, c) && c !in s'.t.conversations && !IsWriter(s', e.p, c) by {
      if ClaimedBy(s', key, c) && c !in s'.t.conversations && !IsWriter(s', e.p, c) {
        forall p | p in s'.calls && s'.calls[p].phase.Writing? ensures s'.calls[p].phase.row.id != c {
          assert !IsWriter(s', p, c);
        }
      } else if IsWriter(s', e.p, c) {
        assert s'.calls[e.p].phase.row.id == c;
      }
    }
  }

  lemma NoNewClaim(e: Step, s: State, key: string, c: Id)
    requires Inv(s) && Enabled(e, s) && !(e.Send? && IsWriter(s, e.p, c))
    ensures ClaimedBy(Apply(e, s), key, c) ==> ClaimedBy(s, key, c)
  {
    if e.Send? {
      assert CallOk(s, s.calls[e.p]);
      SendEffect(s.calls[e.p].phase.row, s.calls[e.p].phase.sent, s.t);
    }
  }

  /** Any other step neither claims a key for c nor takes away its row or its writer. */
  lemma OthersLeaveNoOrphan(e: Step, s: State, key: string, c: Id)
    requires Inv(s) && Enabled(e, s) && !(e.Send? && IsWriter(s, e.p, c)) && !Orphaned(s, key, c)
    ensures !Orphaned(Apply(e, s), key, c)
  {
    var s' := Apply(e, s);
    NoNewClaim(e, s, key, c);
    StepKeepsInv(e, s);
    if ClaimedBy(s', key, c) && c !in s'.t.conversations {
      var p :| p in s.calls && s.calls[p].phase.Writing? && s.calls[p].phase.row.id == c;
      assert IsWriter(s, p, c);
      if !IsStepOf(e, p) { OtherCallsStay(e, s, p); }
      assert s'.calls[p].phase.row.id == c;
    }
  }

  /** From then on no call for that key ever succeeds, whatever else happens. */
  lemma OrphanedKeyNeverSucceeds(es: seq<Step>, s: State, key: string, c: Id, q: nat)
    requires Inv(s) && IsRun(es, s) && Orphaned(s, key, c)
    ensures var s' := After(es, s); q in s'.calls && Key(s'.calls[q]) == key ==> !s'.calls[q].phase.Returned?
  {
    OrphanStays(es, s, key, c);
    RunKeepsInv(es, s);
    var s' := After(es, s);
    if q in s'.calls { assert CallOk(s', s'.calls[q]); }
  }

  /** A first call for two users that found nothing has drawn the id of their conversation. */
  lemma FirstCall(row: Row) returns (es: seq<Step>)
    requires row == NewDirectConversation("c", "a", "b", 0)
    ensures IsRun(es, INITIAL)
    ensures After(es, INITIAL) == State(INITIAL.t, map[0 := Call("a", "b", Writing(row, 0), true)],
                                        map["c" := ("a", "b")], {})
  {
    es := [];
    OneMoreStep(es, Start(0, "a", "b"), INITIAL);
    es := es + [Start(0, "a", "b")];
    assert After(es, INITIAL) == State(INITIAL.t, map[0 := Call("a", "b", Begin, true)], map[], {});
    OneMoreStep(es, Lookup(0, Done), INITIAL);
    es := es + [Lookup(0, Done)];
    assert After(es, INITIAL) == State(INITIAL.t, map[0 := Call("a", "b", Missed, true)], map[], {});
    OneMoreStep(es, NewId(0, "c", 0), INITIAL);
    es := es + [NewId(0, "c", 0)];
  }

  /** And it does happen: one refused statement after the claim is enough. */
  lemma OrphanIsReachable()
    ensures exists es, key, c :: IsRun(es, INITIAL) && Orphaned(After(es, INITIAL), key, c)
  {
    var row := NewDirectConversation("c", "a", "b", 0);
    DirectConversationIsSymmetric("c", "a", "b", 0);
    CreateScriptShape(row);
    var es := FirstCall(row);
    var t := Execute(ClaimKey(RowKey(row), "c"), INITIAL.t);
    OneMoreStep(es, Send(0, Done), INITIAL);
    es := es + [Send(0, Done)];
    assert After(es, INITIAL) == State(t, map[0 := Call("a", "b", Writing(row, 1), true)],
                                       map["c" := ("a", "b")], {});
    OneMoreStep(es, Send(0, Refused), INITIAL);
    assert Orphaned(After(es + [Send(0, Refused)], INITIAL), RowKey(row), "c");
  }

  lemma OneMoreStep(es: seq<Step>, e: Step, s: State)
    requires IsRun(es, s) && Enabled(e, After(es, s))
    ensures IsRun(es + [e], s) && After(es + [e], s) == Apply(e, After(es, s))
  {
    assert (es + [e])[..|es|] == es;
  }
}
