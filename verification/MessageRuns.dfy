/** Requests on messages as interleaved steps (internal/service/send_message.go and chat_service.go
    over internal/adapter/repository/message_repo.go): each write is a step of its own, a change holds
    what it read until it writes it back, any statement or publication may fail, and a request may
    stop after any step. */
module MessageRuns {
  import opened Basics
  import opened Messages
  import opened MessageStore
  import opened Reactions
  import Terms

  datatype Change =
    | Edit(user: Id, text: string)
    | Delete(user: Id)
    | React(emoji: string, user: Id)
    | Unreact(emoji: string, user: Id)

  datatype Phase =
    | Sending(m: MessageData, sent: nat)             // 0: row not inserted yet, 1: lookup entry not yet
    | Holding(id: Id, held: MessageData, change: Change)
    | Announcing(id: Id, left: nat)                  // stored; that many publications to go
    | Returned(id: Id)
    | Failed

  datatype Event = Stored(id: Id) | Published(id: Id)

  /** first remembers each row as it was inserted; drawn are the ids the generator has given out. */
  datatype State = State(t: Tables, calls: map<nat, Phase>, drawn: set<Id>,
                         first: map<RowKey, Columns>, trace: seq<Event>)

  datatype Step =
    | Send(p: nat, m: MessageData)
    | Insert(p: nat, fate: Fate)
    | Load(p: nat, id: Id, change: Change, fate: Fate)
    | WriteBack(p: nat, fate: Fate)
    | Receipt(p: nat, id: Id, fate: Fate)
    | Publish(p: nat, fate: Fate)

  /** Both publishers are called once per stored change. */
  const PUBLICATIONS := 2

  predicate Enabled(e: Step, s: State) {
    match e
    // A new message has passed Validate and carries a new id, no reactions and no marks.
    case Send(p, m) =>
      p !in s.calls && m.id !in s.drawn && Validate(m).None? && m.reactions == [] && !m.edited && !m.deleted
    case Insert(p, _) => p in s.calls && s.calls[p].Sending? && s.calls[p].sent <= 1
    case Load(p, _, _, _) => p !in s.calls
    case WriteBack(p, _) => p in s.calls && s.calls[p].Holding?
    case Receipt(p, _, _) => p !in s.calls
    case Publish(p, _) => p in s.calls && s.calls[p].Announcing? && s.calls[p].left > 0
  }

  /** What the checks between reading and writing decide. */
  function Decide(id: Id, m: MessageData, change: Change): Phase {
    match change
    case Edit(user, text) =>
      if m.senderId != user || m.deleted || m.kind != TYPE_TEXT || |text| > MAX_MESSAGE_CONTENT_LENGTH then Failed
      else Holding(id, m, change)
    case Delete(user) => if m.senderId != user then Failed else Holding(id, m, change)
    case React(emoji, user) =>
      var r := AddTo(m.reactions, emoji, user).0;
      if r == LimitReached then Failed
      else if r == AlreadyThere then Announcing(id, PUBLICATIONS) else Holding(id, m, change)
    case Unreact(emoji, user) =>
      if RemoveFrom(m.reactions, emoji, user).0 then Holding(id, m, change) else Announcing(id, PUBLICATIONS)
  }

  /** The statement that writes a change back: edits and deletions replace the whole row with what
      was read, reactions only their column. */
  function WriteOf(m: MessageData, change: Change): Statement {
    match change
    case Edit(_, text) => UpdateRow(KeyOf(m), Flatten(Edited(m, text)))
    case Delete(_) => UpdateRow(KeyOf(m), Flatten(Deleted(m)))
    case React(emoji, user) => UpdateReactions(KeyOf(m), AddTo(m.reactions, emoji, user).1)
    case Unreact(emoji, user) => UpdateReactions(KeyOf(m), RemoveFrom(m.reactions, emoji, user).1)
  }

  function SetPhase(s: State, p: nat, phase: Phase): State {
    s.(calls := s.calls[p := phase])
  }

  function Apply(e: Step, s: State): State
    requires Enabled(e, s)
  {
    match e
    case Send(p, m) => SetPhase(s, p, Sending(m, 0)).(drawn := s.drawn + {m.id})
    case Insert(p, fate) =>
      var Sending(m, n) := s.calls[p];
      var key := KeyOf(m);
      if n == 0 then
        if fate == Refused then SetPhase(s, p, Failed)
        else if key in s.t.messages then SetPhase(s, p, Failed)
        else SetPhase(s, p, if fate == Done then Sending(m, 1) else Failed)
             .(t := Execute(InsertRow(key, Flatten(m)), s.t), first := s.first[key := Flatten(m)],
               trace := s.trace + [Stored(m.id)])
      else
        if fate == Refused then SetPhase(s, p, Failed)
        else SetPhase(s, p, if fate == Done then Announcing(m.id, PUBLICATIONS) else Failed)
             .(t := Execute(InsertLookup(m.id, key), s.t))
    case Load(p, id, change, fate) =>
      SetPhase(s, p, if fate == Done && Findable(s.t, id) then Decide(id, Read(s.t, id), change) else Failed)
    case WriteBack(p, fate) =>
      var Holding(id, m, change) := s.calls[p];
      if fate == Refused then SetPhase(s, p, Failed)
      else SetPhase(s, p, if fate == Done then Announcing(id, PUBLICATIONS) else Failed)
           .(t := Execute(WriteOf(m, change), s.t))
    case Receipt(p, id, fate) =>
      SetPhase(s, p, if fate == Done && Findable(s.t, id) then Announcing(id, PUBLICATIONS) else Failed)
    case Publish(p, fate) =>
      var Announcing(id, left) := s.calls[p];
      SetPhase(s, p, if left == 1 then Returned(id) else Announcing(id, left - 1))
        .(trace := if fate == Refused then s.trace else s.trace + [Published(id)])
  }

  ghost predicate IsRun(es: seq<Step>, s: State)
    decreases |es|, 1
  {
    es == [] || (IsRun(es[..|es| - 1], s) && Enabled(es[|es| - 1], After(es[..|es| - 1], s)))
  }

  ghost function After(es: seq<Step>, s: State): State
    requires IsRun(es, s)
    decreases |es|, 2
  {
    if es == [] then s else Apply(es[|es| - 1], After(es[..|es| - 1], s))
  }

  const INITIAL := State(Tables(map[], map[]), map[], {}, map[], [])

  // ---- the invariant ----

  /** What every row keeps, in every interleaving. */
  ghost predicate ColumnsOk(c: Columns) {
    && Shape(c.reactions)
    && |c.text| <= MAX_MESSAGE_CONTENT_LENGTH
    && (c.deleted ==> c.text == "" && c.mentions == [] && c.mediaUrl == "")
  }

  ghost predicate SameOrigin(c: Columns, d: Columns) {
    c.senderId == d.senderId && c.kind == d.kind
  }

  ghost predicate RowsOk(s: State) {
    && s.first.Keys == s.t.messages.Keys
    && (forall k :: k in s.t.messages ==> RowOk(s, k))
  }

  ghost predicate RowOk(s: State, k: RowKey)
    requires k in s.t.messages && k in s.first
  {
    ColumnsOk(s.t.messages[k]) && SameOrigin(s.t.messages[k], s.first[k]) && k.id in s.drawn && Stored(k.id) in s.trace
  }

  ghost predicate TraceOk(trace: seq<Event>) {
    forall j :: 0 <= j < |trace| && trace[j].Published? ==> Stored(trace[j].id) in trace[..j]
  }

  /** What the checks leave to be written. */
  predicate MayHold(m: MessageData, change: Change) {
    && (change.Edit? ==> !m.deleted && |change.text| <= MAX_MESSAGE_CONTENT_LENGTH)
    && (change.React? ==> AddTo(m.reactions, change.emoji, change.user).0 == Added.Added)
  }

  ghost predicate CallOk(s: State, c: Phase) {
    match c
    case Sending(m, n) =>
      && m.id in s.drawn && ColumnsOk(Flatten(m)) && n <= 1
      && (n == 0 ==> forall k :: k in s.t.messages ==> k.id != m.id)
      && (n == 1 ==> KeyOf(m) in s.t.messages)
    case Holding(id, m, change) =>
      && KeyOf(m) in s.t.messages && ColumnsOk(Flatten(m)) && SameOrigin(Flatten(m), s.t.messages[KeyOf(m)])
      && id in s.t.messagesById && MayHold(m, change)
    case Announcing(id, _) => id in s.t.messagesById
    case Returned(id) => id in s.t.messagesById
    case Failed => true
  }

  ghost predicate OneSender(s: State) {
    forall p, q :: p in s.calls && q in s.calls && p != q && s.calls[p].Sending? && s.calls[q].Sending? ==>
      s.calls[p].m.id != s.calls[q].m.id
  }

  ghost predicate Inv(s: State) {
    && LookupsOk(s.t) && RowsOk(s) && TraceOk(s.trace)
    && (forall p :: p in s.calls ==> CallOk(s, s.calls[p]))
    && OneSender(s)
  }

  lemma ColumnsSurviveReading(k: RowKey, c: Columns)
    requires ColumnsOk(c)
    ensures ColumnsOk(Flatten(Build(k, c))) && SameOrigin(Flatten(Build(k, c)), c) && KeyOf(Build(k, c)) == k
  {
    BuildIsNormalForm(k, c);
  }

  /** Writing back a change that passed its checks gives a good row again. */
  lemma WriteIsOk(m: MessageData, change: Change, t: Tables)
    requires ColumnsOk(Flatten(m)) && KeyOf(m) in t.messages && ColumnsOk(t.messages[KeyOf(m)])
    requires SameOrigin(Flatten(m), t.messages[KeyOf(m)])
    requires change.Edit? ==> !m.deleted && |change.text| <= MAX_MESSAGE_CONTENT_LENGTH
    ensures var t' := Execute(WriteOf(m, change), t);
      && t'.messages.Keys == t.messages.Keys && t'.messagesById == t.messagesById
      && ColumnsOk(t'.messages[KeyOf(m)]) && SameOrigin(t'.messages[KeyOf(m)], t.messages[KeyOf(m)])
      && forall k :: k in t.messages && k != KeyOf(m) ==> t'.messages[k] == t.messages[k]
  {
    match change
    case Edit(_, _) =>
    case Delete(_) =>
    case React(emoji, user) => AddRefines(m.reactions, emoji, user);
    case Unreact(emoji, user) => RemoveRefines(m.reactions, emoji, user);
  }

  lemma TraceGrows(trace: seq<Event>, e: Event)
    requires TraceOk(trace) && (e.Published? ==> Stored(e.id) in trace)
    ensures TraceOk(trace + [e])
  {
    var t := trace + [e];
    forall j | 0 <= j < |t| && t[j].Published? ensures Stored(t[j].id) in t[..j] {
      if j < |trace| { assert t[..j] == trace[..j]; } else { assert t[..j] == trace; }
    }
  }

  /** Rows, lookup entries and drawn ids are only added, and a row keeps its origin. */
  ghost predicate Grows(s: State, s': State) {
    && s.t.messages.Keys <= s'.t.messages.Keys && s.t.messagesById.Keys <= s'.t.messagesById.Keys
    && s.drawn <= s'.drawn
    && forall k :: k in s.t.messages ==> SameOrigin(s.t.messages[k], s'.t.messages[k])
  }

  /** After a step of call p: if the tables and the trace are in order, so is everything, provided
      new rows carry an id that no other call is sending. */
  lemma InvFrom(s: State, s': State, p: nat, c: Phase)
    requires Inv(s) && Grows(s, s')
    requires LookupsOk(s'.t) && RowsOk(s') && TraceOk(s'.trace)
    requires s'.calls == s.calls[p := c] && CallOk(s', c)
    requires forall k, q :: k in s'.t.messages && k !in s.t.messages && q in s.calls && q != p && s.calls[q].Sending?
               ==> s.calls[q].m.id != k.id
    requires c.Sending? ==> forall q :: q in s.calls && q != p && s.calls[q].Sending? ==> s.calls[q].m.id != c.m.id
    ensures Inv(s')
  {
    forall q | q in s'.calls ensures CallOk(s', s'.calls[q]) {
      if q != p {
        assert s'.calls[q] == s.calls[q] && CallOk(s, s.calls[q]);
        CallOkSurvives(s, s', s.calls[q]);
      }
    }
  }

  lemma CallOkSurvives(s: State, s': State, c: Phase)
    requires CallOk(s, c) && Grows(s, s')
    requires c.Sending? ==> forall k :: k in s'.t.messages && k !in s.t.messages ==> c.m.id != k.id
    ensures CallOk(s', c)
  { }

  /** The tables, the first rows and the trace did not change. */
  lemma InvUnlessTables(s: State, s': State, p: nat, c: Phase)
    requires Inv(s) && s'.t == s.t && s'.first == s.first && s'.trace == s.trace && s.drawn <= s'.drawn
    requires s'.calls == s.calls[p := c] && CallOk(s', c)
    requires c.Sending? ==> forall q :: q in s.calls && q != p && s.calls[q].Sending? ==> s.calls[q].m.id != c.m.id
    ensures Inv(s')
  {
    InvFrom(s, s', p, c);
  }

  lemma SendKeepsInv(e: Step, s: State)
    requires Inv(s) && e.Send? && Enabled(e, s)
    ensures Inv(Apply(e, s))
  {
    var s' := Apply(e, s);
    forall k | k in s.t.messages ensures k.id != e.m.id { assert RowOk(s, k); }
    forall q | q in s.calls && q != e.p && s.calls[q].Sending? ensures s.calls[q].m.id != e.m.id {
      assert CallOk(s, s.calls[q]);
    }
    InvUnlessTables(s, s', e.p, Sending(e.m, 0));
  }

  lemma PublishKeepsInv(e: Step, s: State)
    requires Inv(s) && e.Publish? && Enabled(e, s)
    ensures Inv(Apply(e, s))
  {
    var s', id := Apply(e, s), s.calls[e.p].id;
    assert CallOk(s, s.calls[e.p]);
    assert s.t.messagesById[id].id == id && RowOk(s, s.t.messagesById[id]);
    TraceGrows(s.trace, Published(id));
    assert RowsOk(s') by {
      assert forall x :: x in s.trace ==> x in s'.trace;
      forall k | k in s'.t.messages ensures RowOk(s', k) { assert RowOk(s, k); }
    }
    InvFrom(s, s', e.p, s'.calls[e.p]);
  }

  lemma InsertKeepsInv(e: Step, s: State)
    requires Inv(s) && e.Insert? && Enabled(e, s)
    ensures Inv(Apply(e, s))
  {
    if e.fate == Refused {
      InvUnlessTables(s, Apply(e, s), e.p, Failed);
    } else if s.calls[e.p].sent == 0 {
      InsertsRow(e, s);
      RowInsertKeepsInv(s, Apply(e, s), e.p, Apply(e, s).calls[e.p]);
    } else {
      InsertsLookup(e, s);
      LookupInsertKeepsInv(s, Apply(e, s), e.p, Apply(e, s).calls[e.p]);
    }
  }

  lemma InsertsLookup(e: Step, s: State)
    requires e.Insert? && Enabled(e, s) && e.fate != Refused && s.calls[e.p].sent != 0
    ensures var s', m := Apply(e, s), s.calls[e.p].m;
      && s'.t.messages == s.t.messages && s'.t.messagesById == s.t.messagesById[m.id := KeyOf(m)]
      && s'.first == s.first && s'.trace == s.trace && s'.drawn == s.drawn
      && s'.calls == s.calls[e.p := if e.fate == Done then Announcing(m.id, PUBLICATIONS) else Failed]
  { }

  lemma InsertsRow(e: Step, s: State)
    requires Inv(s) && e.Insert? && Enabled(e, s) && e.fate != Refused && s.calls[e.p].sent == 0
    ensures var s', m := Apply(e, s), s.calls[e.p].m;
      && s'.t.messages == s.t.messages[KeyOf(m) := Flatten(m)] && s'.t.messagesById == s.t.messagesById
      && s'.first == s.first[KeyOf(m) := Flatten(m)] && s'.trace == s.trace + [Stored(m.id)]
      && s'.drawn == s.drawn
      && s'.calls == s.calls[e.p := if e.fate == Done then Sending(m, 1) else Failed]
  {
    SendingIsNew(s, e.p);
  }

  lemma RowInsertKeepsInv(s: State, s': State, p: nat, c: Phase)
    requires Inv(s) && p in s.calls && s.calls[p].Sending? && s.calls[p].sent == 0
    requires var m := s.calls[p].m;
      && s'.t.messages == s.t.messages[KeyOf(m) := Flatten(m)] && s'.t.messagesById == s.t.messagesById
      && s'.first == s.first[KeyOf(m) := Flatten(m)] && s'.trace == s.trace + [Stored(m.id)]
      && s'.drawn == s.drawn && s'.calls == s.calls[p := c] && (c == Sending(m, 1) || c == Failed)
    ensures Inv(s')
  {
    var m := s.calls[p].m;
    SendingIsNew(s, p);
    TraceGrows(s.trace, Stored(m.id));
    RowsOkWithNew(s, s', KeyOf(m), Flatten(m));
    NewRowGrows(s, s', KeyOf(m), Flatten(m));
    InvFrom(s, s', p, c);
  }

  lemma SendingIsNew(s: State, p: nat)
    requires Inv(s) && p in s.calls && s.calls[p].Sending? && s.calls[p].sent == 0
    ensures var m := s.calls[p].m;
      KeyOf(m) !in s.t.messages && m.id in s.drawn && ColumnsOk(Flatten(m))
  {
    assert CallOk(s, s.calls[p]);
  }

  lemma NewRowGrows(s: State, s': State, key: RowKey, columns: Columns)
    requires LookupsOk(s.t) && key !in s.t.messages && s'.drawn == s.drawn
    requires s'.t.messages == s.t.messages[key := columns] && s'.t.messagesById == s.t.messagesById
    ensures LookupsOk(s'.t) && Grows(s, s')
  { }

  lemma RowsOkWithNew(s: State, s': State, key: RowKey, columns: Columns)
    requires RowsOk(s) && LookupsOk(s.t) && ColumnsOk(columns) && key.id in s.drawn && key !in s.t.messages
    requires s'.t.messagesById == s.t.messagesById
    requires s'.t.messages == s.t.messages[key := columns] && s'.first == s.first[key := columns]
    requires s'.trace == s.trace + [Stored(key.id)] && s'.drawn == s.drawn
    ensures RowsOk(s')
  {
    assert s'.trace[|s.trace|] == Stored(key.id);
    forall k | k in s'.t.messages ensures RowOk(s', k) {
      if k != key { RowStaysOk(s, s', k); }
    }
  }

  lemma RowStaysOk(s: State, s': State, k: RowKey)
    requires k in s.t.messages && k in s.first && RowOk(s, k)
    requires k in s'.t.messages && s'.t.messages[k] == s.t.messages[k] && k in s'.first && s'.first[k] == s.first[k]
    requires s.drawn <= s'.drawn && s.trace <= s'.trace
    ensures RowOk(s', k)
  {
    var i :| 0 <= i < |s.trace| && s.trace[i] == Stored(k.id);
    assert s'.trace[i] == Stored(k.id);
  }

  lemma LookupInsertKeepsInv(s: State, s': State, p: nat, c: Phase)
    requires Inv(s) && p in s.calls && s.calls[p].Sending? && s.calls[p].sent == 1
    requires var m := s.calls[p].m;
      && s'.t.messages == s.t.messages && s'.t.messagesById == s.t.messagesById[m.id := KeyOf(m)]
      && s'.first == s.first && s'.trace == s.trace && s'.drawn == s.drawn
      && s'.calls == s.calls[p := c] && (c == Announcing(m.id, PUBLICATIONS) || c == Failed)
    ensures Inv(s')
  {
    assert CallOk(s, s.calls[p]);
    RowsOkWithLookup(s, s', KeyOf(s.calls[p].m));
    InvFrom(s, s', p, c);
  }

  lemma RowsOkWithLookup(s: State, s': State, key: RowKey)
    requires RowsOk(s) && LookupsOk(s.t) && key in s.t.messages
    requires s'.t.messages == s.t.messages && s'.t.messagesById == s.t.messagesById[key.id := key]
    requires s'.first == s.first && s'.trace == s.trace && s'.drawn == s.drawn
    ensures RowsOk(s') && LookupsOk(s'.t) && Grows(s, s')
  {
    forall k | k in s'.t.messages ensures RowOk(s', k) { assert RowOk(s, k); }
  }

  lemma WriteBackKeepsInv(e: Step, s: State)
    requires Inv(s) && e.WriteBack? && Enabled(e, s)
    ensures Inv(Apply(e, s))
  {
    var c := s.calls[e.p];
    assert CallOk(s, c);
    if e.fate == Refused {
      InvUnlessTables(s, Apply(e, s), e.p, Failed);
    } else {
      WriteIsOk(c.held, c.change, s.t);
      WriteKeepsInv(s, Apply(e, s), e.p, Apply(e, s).calls[e.p], KeyOf(c.held));
    }
  }

  lemma WriteKeepsInv(s: State, s': State, p: nat, c: Phase, key: RowKey)
    requires Inv(s) && key in s.t.messages
    requires s'.t.messages.Keys == s.t.messages.Keys && s'.t.messagesById == s.t.messagesById
    requires ColumnsOk(s'.t.messages[key]) && SameOrigin(s'.t.messages[key], s.t.messages[key])
    requires forall k :: k in s.t.messages && k != key ==> s'.t.messages[k] == s.t.messages[k]
    requires s'.first == s.first && s'.drawn == s.drawn && s'.trace == s.trace
    requires s'.calls == s.calls[p := c] && (c == Failed || (c.Announcing? && c.id in s.t.messagesById))
    ensures Inv(s')
  {
    WriteKeepsRows(s, s', key);
    InvFrom(s, s', p, c);
  }

  lemma WriteKeepsRows(s: State, s': State, key: RowKey)
    requires RowsOk(s) && LookupsOk(s.t) && key in s.t.messages
    requires s'.t.messages.Keys == s.t.messages.Keys && s'.t.messagesById == s.t.messagesById
    requires ColumnsOk(s'.t.messages[key]) && SameOrigin(s'.t.messages[key], s.t.messages[key])
    requires forall k :: k in s.t.messages && k != key ==> s'.t.messages[k] == s.t.messages[k]
    requires s'.first == s.first && s'.drawn == s.drawn && s'.trace == s.trace
    ensures RowsOk(s') && Grows(s, s') && LookupsOk(s'.t)
  {
    forall k | k in s'.t.messages ensures RowOk(s', k) && SameOrigin(s.t.messages[k], s'.t.messages[k]) {
      assert RowOk(s, k);
    }
  }

  lemma LoadKeepsInv(e: Step, s: State)
    requires Inv(s) && (e.Load? || e.Receipt?) && Enabled(e, s)
    ensures Inv(Apply(e, s))
  {
    var s' := Apply(e, s);
    var c := s'.calls[e.p];
    if Findable(s.t, e.id) {
      var k := s.t.messagesById[e.id];
      assert k.(id := e.id) == k;
      if e.Load? { DecisionOk(e.id, k, e.change, s, s'); }
    }
    InvUnlessTables(s, s', e.p, c);
  }

  lemma DecisionOk(id: Id, k: RowKey, change: Change, s: State, s': State)
    requires Inv(s) && k in s.t.messages && id in s.t.messagesById && s'.t == s.t
    ensures var c := Decide(id, Build(k, s.t.messages[k]), change); CallOk(s', c) && !c.Sending?
  {
    var m := Build(k, s.t.messages[k]);
    ColumnsSurviveReading(k, s.t.messages[k]);
    if MayHold(m, change) { assert CallOk(s', Holding(id, m, change)); }
    DecisionIsOneOf(id, m, change);
  }

  lemma DecisionIsOneOf(id: Id, m: MessageData, change: Change)
    ensures var c := Decide(id, m, change);
      c == Failed || c == Announcing(id, PUBLICATIONS)
      || (c == Holding(id, m, change) && MayHold(m, change))
  { }

  lemma StepKeepsInv(e: Step, s: State)
    requires Inv(s) && Enabled(e, s)
    ensures Inv(Apply(e, s))
  {
    match e
    case Insert(_, _) => InsertKeepsInv(e, s);
    case WriteBack(_, _) => WriteBackKeepsInv(e, s);
    case Load(_, _, _, _) => LoadKeepsInv(e, s);
    case Receipt(_, _, _) => LoadKeepsInv(e, s);
    case Send(p, m) => SendKeepsInv(e, s);
    case Publish(p, fate) => PublishKeepsInv(e, s);
  }

  lemma {:induction false} RunKeepsInv(es: seq<Step>, s: State)
    requires Inv(s) && IsRun(es, s)
    ensures Inv(After(es, s))
    decreases |es|
  {
    if es == [] {
    } else {
      RunKeepsInv(es[..|es| - 1], s);
      StepKeepsInv(es[|es| - 1], After(es[..|es| - 1], s));
    }
  }

  // ---- single calls as steps ----

  /** A send that nothing comes in between is the two inserts. */
  lemma SendIsTwoInserts(s: State, p: nat, m: MessageData, row: Fate, lookup: Fate)
    requires Enabled(Send(p, m), s) && KeyOf(m) !in s.t.messages
    ensures var s1 := Apply(Send(p, m), s);
      var s2 := Apply(Insert(p, row), s1);
      if row == Done
      then Enabled(Insert(p, lookup), s2)
           && Apply(Insert(p, lookup), s2).t == AfterSend(KeyOf(m), Flatten(m), row, lookup, s.t)
      else s2.t == AfterSend(KeyOf(m), Flatten(m), row, lookup, s.t)
  { }

  /** The tables after a change that nothing comes in between. */
  function AfterChange(id: Id, change: Change, write: Fate, t: Tables): Tables {
    if Findable(t, id) && Decide(id, Read(t, id), change).Holding? && write != Refused
    then Execute(WriteOf(Read(t, id), change), t) else t
  }

  lemma ChangeIsReadAndWrite(s: State, p: nat, id: Id, change: Change, write: Fate)
    requires p !in s.calls
    ensures var s1 := Apply(Load(p, id, change, Done), s);
      if s1.calls[p].Holding?
      then Enabled(WriteBack(p, write), s1) && Apply(WriteBack(p, write), s1).t == AfterChange(id, change, write, s.t)
      else s1.t == AfterChange(id, change, write, s.t)
  { }

  // ---- what every interleaving guarantees ----

  /** Lookup entries lead to rows; reactions keep their shape, texts their limit; a deleted row is
      empty; and sender and type stay as inserted (conversation, time and id are the key). */
  lemma RowsStayGood(es: seq<Step>)
    requires IsRun(es, INITIAL)
    ensures var s := After(es, INITIAL);
      && LookupsOk(s.t) && s.first.Keys == s.t.messages.Keys
      && forall k :: k in s.t.messages ==>
           var c := s.t.messages[k];
           && Shape(c.reactions) && |c.text| <= MAX_MESSAGE_CONTENT_LENGTH
           && (c.deleted ==> c.text == "" && c.mentions == [] && c.mediaUrl == "")
           && c.senderId == s.first[k].senderId && c.kind == s.first[k].kind
  {
    RunKeepsInv(es, INITIAL);
  }

  /** Only the row insert of a SendMessage adds a row; no edit, deletion or reaction creates one. */
  lemma OnlySendingAddsRows(es: seq<Step>, e: Step)
    requires IsRun(es, INITIAL) && Enabled(e, After(es, INITIAL))
    ensures var s := After(es, INITIAL);
      Apply(e, s).t.messages.Keys ==
        if e.Insert? && s.calls[e.p].sent == 0 && e.fate != Refused
        then s.t.messages.Keys + {KeyOf(s.calls[e.p].m)} else s.t.messages.Keys
  {
    RunKeepsInv(es, INITIAL);
    var s := After(es, INITIAL);
    if e.WriteBack? {
      assert CallOk(s, s.calls[e.p]);
      WriteIsOk(s.calls[e.p].held, s.calls[e.p].change, s.t);
    } else {
      OtherStepsKeepRows(e, s);
    }
  }

  lemma OtherStepsKeepRows(e: Step, s: State)
    requires Enabled(e, s) && !e.WriteBack?
    ensures Apply(e, s).t.messages.Keys ==
        if e.Insert? && s.calls[e.p].sent == 0 && e.fate != Refused
        then s.t.messages.Keys + {KeyOf(s.calls[e.p].m)} else s.t.messages.Keys
    ensures forall k :: k in s.t.messages ==>
              k in Apply(e, s).t.messages && Apply(e, s).t.messages[k] == s.t.messages[k]
  { }

  /** From t to t' only the row of m has changed. An edit has set text and mark, a deletion cleared text,
      mentions and media; every other column became what m has. A reaction has changed its own column. */
  ghost predicate MakesChange(m: MessageData, change: Change, t: Tables, t': Tables) {
    var k := KeyOf(m);
    && k in t.messages && t'.messages.Keys == t.messages.Keys && t'.messagesById == t.messagesById
    && (forall j :: j in t.messages && j != k ==> t'.messages[j] == t.messages[j])
    && (change.Edit? ==> t'.messages[k] == Flatten(m).(text := change.text, edited := true))
    && (change.Delete? ==>
          t'.messages[k] == Terms.NoMedia(Flatten(m)).(deleted := true, text := "", mentions := []))
    && (change.React? || change.Unreact? ==>
          var rs := t'.messages[k].reactions;
          && t'.messages[k] == t.messages[k].(reactions := rs)
          && Pairs(rs) == if change.React? then Pairs(m.reactions) + {(change.emoji, change.user)}
                          else Pairs(m.reactions) - {(change.emoji, change.user)})
  }

  lemma WriteMakesChange(m: MessageData, change: Change, t: Tables)
    requires KeyOf(m) in t.messages && Shape(m.reactions) && MayHold(m, change)
    ensures MakesChange(m, change, t, Execute(WriteOf(m, change), t))
  {
    match change
    case Edit(_, _) =>
    case Delete(_) =>
    case React(emoji, user) => AddRefines(m.reactions, emoji, user);
    case Unreact(emoji, user) => RemoveRefines(m.reactions, emoji, user);
  }

  /** In every interleaving, that is what a write-back that takes effect makes of what its call had read. */
  lemma WriteBackLaw(es: seq<Step>, p: nat, fate: Fate)
    requires IsRun(es, INITIAL) && Enabled(WriteBack(p, fate), After(es, INITIAL)) && fate != Refused
    ensures var s := After(es, INITIAL);
      MakesChange(s.calls[p].held, s.calls[p].change, s.t, Apply(WriteBack(p, fate), s).t)
  {
    RunKeepsInv(es, INITIAL);
    var s := After(es, INITIAL);
    assert CallOk(s, s.calls[p]);
    WriteMakesChange(s.calls[p].held, s.calls[p].change, s.t);
  }

  /** Every published event names a message whose row was stored earlier, and a call that returns
      success names a message that can be found. */
  lemma PersistBeforePublish(es: seq<Step>)
    requires IsRun(es, INITIAL)
    ensures var s := After(es, INITIAL);
      && (forall j :: 0 <= j < |s.trace| && s.trace[j].Published? ==>
            exists i :: 0 <= i < j && s.trace[i] == Stored(s.trace[j].id))
      && (forall p :: p in s.calls && s.calls[p].Returned? ==> Findable(s.t, s.calls[p].id))
  {
    RunKeepsInv(es, INITIAL);
    var s := After(es, INITIAL);
    forall j | 0 <= j < |s.trace| && s.trace[j].Published?
      ensures exists i :: 0 <= i < j && s.trace[i] == Stored(s.trace[j].id)
    {
      var i :| 0 <= i < j && s.trace[..j][i] == Stored(s.trace[j].id);
      assert s.trace[i] == Stored(s.trace[j].id);
    }
    forall p | p in s.calls && s.calls[p].Returned? ensures Findable(s.t, s.calls[p].id) {
      assert CallOk(s, s.calls[p]);
      var k := s.t.messagesById[s.calls[p].id];
      assert k.(id := s.calls[p].id) == k;
    }
  }

  // ---- deletion ----

  predicate IsDeleted(t: Tables, k: RowKey) {
    k in t.messages && t.messages[k].deleted
  }

  /** A step undoes a deletion exactly when it writes back an edit of that message: the edit had
      read the message before it was deleted. */
  lemma DeletionLostIff(es: seq<Step>, e: Step, k: RowKey)
    requires IsRun(es, INITIAL) && Enabled(e, After(es, INITIAL)) && IsDeleted(After(es, INITIAL).t, k)
    ensures var s := After(es, INITIAL);
      !IsDeleted(Apply(e, s).t, k) <==>
        e.WriteBack? && e.fate != Refused && s.calls[e.p].change.Edit? && KeyOf(s.calls[e.p].held) == k
  {
    RunKeepsInv(es, INITIAL);
    DeletionStep(e, After(es, INITIAL), k);
  }

  lemma DeletionStep(e: Step, s: State, k: RowKey)
    requires Inv(s) && Enabled(e, s) && IsDeleted(s.t, k)
    ensures !IsDeleted(Apply(e, s).t, k) <==>
        e.WriteBack? && e.fate != Refused && s.calls[e.p].change.Edit? && KeyOf(s.calls[e.p].held) == k
  {
    if e.WriteBack? {
      assert CallOk(s, s.calls[e.p]);
      if e.fate != Refused { DeletionWrite(s.calls[e.p].held, s.calls[e.p].change, s.t, k); }
    } else {
      OtherStepsKeepRows(e, s);
    }
  }

  lemma DeletionWrite(m: MessageData, change: Change, t: Tables, k: RowKey)
    requires KeyOf(m) in t.messages && IsDeleted(t, k) && (change.Edit? ==> !m.deleted)
    ensures IsDeleted(Execute(WriteOf(m, change), t), k) <==> !(change.Edit? && KeyOf(m) == k)
  {
    match change
    case Edit(_, _) =>
    case Delete(_) =>
    case React(_, _) =>
    case Unreact(_, _) =>
  }

  lemma RunsOn(es: seq<Step>, e: Step, s: State)
    requires IsRun(es, s) && Enabled(e, After(es, s))
    ensures IsRun(es + [e], s) && After(es + [e], s) == Apply(e, After(es, s))
  {
    assert (es + [e])[..|es|] == es;
  }

  /** The message as its sender's next request reads it. */
  function StoredText(m: MessageData): MessageData {
    Build(KeyOf(m), Flatten(m))
  }

  /** The message is stored, and an edit and a deletion by its sender have both read it. */
  lemma EditAndDeletionPending(m: MessageData, text: string) returns (es: seq<Step>)
    requires Validate(m).None? && m.kind == TYPE_TEXT && m.reactions == [] && !m.edited && !m.deleted
    requires |text| <= MAX_MESSAGE_CONTENT_LENGTH
    ensures es == [Send(0, m), Insert(0, Done), Insert(0, Done),
                   Load(1, m.id, Edit(m.senderId, text), Done), Load(2, m.id, Delete(m.senderId), Done)]
    ensures IsRun(es, INITIAL)
    ensures var s := After(es, INITIAL);
      && s.t.messages == map[KeyOf(m) := Flatten(m)]
      && s.calls == map[0 := Announcing(m.id, PUBLICATIONS),
                        1 := Holding(m.id, StoredText(m), Edit(m.senderId, text)),
                        2 := Holding(m.id, StoredText(m), Delete(m.senderId))]
  {
    var edit, delete := Edit(m.senderId, text), Delete(m.senderId);
    es := [];
    RunsOn(es, Send(0, m), INITIAL);
    es := es + [Send(0, m)];
    RunsOn(es, Insert(0, Done), INITIAL);
    es := es + [Insert(0, Done)];
    RunsOn(es, Insert(0, Done), INITIAL);
    es := es + [Insert(0, Done)];
    assert KeyOf(m).(id := m.id) == KeyOf(m);
    RunsOn(es, Load(1, m.id, edit, Done), INITIAL);
    es := es + [Load(1, m.id, edit, Done)];
    RunsOn(es, Load(2, m.id, delete, Done), INITIAL);
    es := es + [Load(2, m.id, delete, Done)];
  }

  /** And every valid text message can be brought back: its deletion is stored first, and then the
      edit that had read it before. */
  lemma EditBringsBack(m: MessageData, text: string) returns (es: seq<Step>, e: Step)
    requires Validate(m).None? && m.kind == TYPE_TEXT && m.reactions == [] && !m.edited && !m.deleted
    requires |text| <= MAX_MESSAGE_CONTENT_LENGTH
    ensures es == [Send(0, m), Insert(0, Done), Insert(0, Done),
                   Load(1, m.id, Edit(m.senderId, text), Done), Load(2, m.id, Delete(m.senderId), Done),
                   WriteBack(2, Done)]
    ensures e == WriteBack(1, Done)
    ensures IsRun(es, INITIAL) && Enabled(e, After(es, INITIAL))
    ensures IsDeleted(After(es, INITIAL).t, KeyOf(m))
    ensures var t := Apply(e, After(es, INITIAL)).t;
      !IsDeleted(t, KeyOf(m)) && KeyOf(m) in t.messages && t.messages[KeyOf(m)].text == text
  {
    es := EditAndDeletionPending(m, text);
    MillisOfMultiple(Millis(m.createdAt));
    assert KeyOf(StoredText(m)) == KeyOf(m);
    RunsOn(es, WriteBack(2, Done), INITIAL);
    es, e := es + [WriteBack(2, Done)], WriteBack(1, Done);
    DeletionLostIff(es, e, KeyOf(m));
  }

  /** No other write came between the read and the write of a change. */
  ghost predicate Undisturbed(e: Step, s: State) {
    e.WriteBack? && Enabled(e, s) ==>
      var m := s.calls[e.p].held;
      KeyOf(m) in s.t.messages && m == Build(KeyOf(m), s.t.messages[KeyOf(m)])
  }

  ghost predicate IsSequential(es: seq<Step>, s: State)
    requires IsRun(es, s)
    decreases |es|
  {
    es == [] || (IsSequential(es[..|es| - 1], s) && Undisturbed(es[|es| - 1], After(es[..|es| - 1], s)))
  }

  lemma DeletionSurvives(e: Step, s: State, k: RowKey)
    requires Inv(s) && Enabled(e, s) && Undisturbed(e, s) && IsDeleted(s.t, k)
    ensures IsDeleted(Apply(e, s).t, k)
  {
    DeletionStep(e, s, k);
    if e.WriteBack? { assert CallOk(s, s.calls[e.p]); }
  }

  /** When changes do not overlap, deletion is final. */
  lemma {:induction false} DeletionIsFinal(es: seq<Step>, more: seq<Step>, k: RowKey)
    requires IsRun(es, INITIAL) && IsDeleted(After(es, INITIAL).t, k)
    requires IsRun(more, After(es, INITIAL)) && IsSequential(more, After(es, INITIAL))
    ensures IsDeleted(After(more, After(es, INITIAL)).t, k)
    decreases |more|
  {
    if more == [] {
    } else {
      var before, e, s0 := more[..|more| - 1], more[|more| - 1], After(es, INITIAL);
      DeletionIsFinal(es, before, k);
      RunKeepsInv(es, INITIAL);
      RunKeepsInv(before, s0);
      DeletionSurvives(e, After(before, s0), k);
    }
  }
}
