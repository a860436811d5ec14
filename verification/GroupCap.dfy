/** The participants of one group under concurrent requests. Three requests write the list: adding
    (internal/service/create_conversation.go:58-74), removing (77-87) and marking as read
    (internal/service/chat_service.go:84-126). Each reads the whole list and writes it back later
    (internal/adapter/repository/conversation_repo.go), so another write can fall in between. */
module GroupCap {
  import opened Basics
  import opened Conversations
  import ConversationStore

  datatype Change =
    | Add(user: Id)
    | Remove(user: Id)
    | Mark(user: Id, messageId: Id, readAt: int)

  datatype Call =
    | Checked(user: Id)                                  // an add that passed the service's check
    | Holding(held: seq<Participant>, change: Change)    // has read the list and will write it back

  /** What the row holds, and the calls under way. */
  datatype State = State(blob: seq<Participant>, calls: map<nat, Call>)

  datatype Step =
    | Check(p: nat, requester: Id, user: Id)
    | Load(p: nat)
    | LoadChange(p: nat, change: Change)
    | Store(p: nat)
    | Abandon(p: nat)

  /** The list a call writes, computed from the list it read. */
  function Changed(held: seq<Participant>, change: Change): seq<Participant> {
    match change
    case Add(u) => held + [NewMember(u)]
    case Remove(u) => Without(held, u)
    case Mark(u, m, at) => MarkRead(held, u, m, at)
  }

  /** It is the list in the first statement the repository sends for each of the three. */
  lemma ChangedIsWritten(c: Id, t: ConversationStore.Tables, u: Id, m: Id, now: int)
    requires c in t.conversations
    ensures var held := t.conversations[c].participants;
      && ConversationStore.AddScript(c, held, NewMember(u), now)[0]
         == ConversationStore.WriteParticipants(c, Changed(held, Add(u)), Some(now))
      && ConversationStore.RemoveScript(c, held, u, now)[0]
         == ConversationStore.WriteParticipants(c, Changed(held, Remove(u)), Some(now))
      && (u in Ids(held) ==> ConversationStore.Script(ConversationStore.UpdateReadCursor(c, u, m, now), t)
                             == [ConversationStore.WriteParticipants(c, Changed(held, Mark(u, m, now)), None)])
  { }

  predicate IsAdd(c: Call) {
    c.Checked? || c.change.Add?
  }

  /** The adds in flight past their check. */
  function Adds(s: State): set<nat> {
    set p | p in s.calls && IsAdd(s.calls[p])
  }

  /** At most k adds are in flight past their check. Anybody may ask to be removed, member or not. */
  ghost predicate Enabled(e: Step, s: State, k: nat) {
    match e
    case Check(p, requester, u) =>
      && p !in s.calls && HasAdmin(s.blob, requester)
      && u !in Ids(s.blob) && |s.blob| < MAX_GROUP_PARTICIPANTS && |Adds(s)| < k
    case Load(p) => p in s.calls && s.calls[p].Checked?
    case LoadChange(p, change) => p !in s.calls && !change.Add? && (change.Mark? ==> change.user in Ids(s.blob))
    case Store(p) => p in s.calls && s.calls[p].Holding?
    case Abandon(p) => p in s.calls
  }

  /** A step that is not enabled changes nothing. */
  function Apply(e: Step, s: State): State {
    match e
    case Check(p, _, u) => s.(calls := s.calls[p := Checked(u)])
    case Load(p) =>
      if p in s.calls && s.calls[p].Checked?
      then s.(calls := s.calls[p := Holding(s.blob, Add(s.calls[p].user))]) else s
    case LoadChange(p, change) => s.(calls := s.calls[p := Holding(s.blob, change)])
    case Store(p) =>
      if p in s.calls && s.calls[p].Holding?
      then State(Changed(s.calls[p].held, s.calls[p].change), s.calls - {p}) else s
    case Abandon(p) => s.(calls := s.calls - {p})
  }

  function After(es: seq<Step>, s: State): State {
    if es == [] then s else Apply(es[|es| - 1], After(es[..|es| - 1], s))
  }

  ghost predicate IsRun(es: seq<Step>, s: State, k: nat) {
    es == [] || (IsRun(es[..|es| - 1], s, k) && Enabled(es[|es| - 1], After(es[..|es| - 1], s), k))
  }

  /** A store is fresh when the list it read names the users the row still names. */
  predicate IsFresh(e: Step, s: State) {
    e.Store? && e.p in s.calls && s.calls[e.p].Holding? ==> Ids(s.calls[e.p].held) == Ids(s.blob)
  }

  ghost predicate AllFresh(es: seq<Step>, s: State) {
    es == [] || (AllFresh(es[..|es| - 1], s) && IsFresh(es[|es| - 1], After(es[..|es| - 1], s)))
  }

  function Start(blob: seq<Participant>): State {
    State(blob, map[])
  }

  // ---- what a store does ----

  function Own(change: Change): set<Id> {
    if change.Mark? then {} else {change.user}
  }

  lemma WithOrWithout(a: set<Id>, b: set<Id>, u: Id)
    ensures a + {u} == b + {u} <==> a - {u} == b - {u}
  {
    assert a + {u} == (a - {u}) + {u} && b + {u} == (b - {u}) + {u};
    assert a - {u} == (a + {u}) - {u} && b - {u} == (b + {u}) - {u};
  }

  /** A store has the effect of its own change on the current list exactly when nobody else joined
      or left since the list was read. */
  lemma StoreIff(held: seq<Participant>, blob: seq<Participant>, change: Change)
    ensures Members(Changed(held, change)) == Members(Changed(blob, change))
            <==> Members(held) - Own(change) == Members(blob) - Own(change)
    ensures !change.Remove? ==>
              (Ids(Changed(held, change)) == Ids(Changed(blob, change)) <==> Ids(held) == Ids(blob))
  {
    match change
    case Add(u) =>
      MembersOfAppend(held, NewMember(u));
      MembersOfAppend(blob, NewMember(u));
      assert Ids(held) == Ids(Changed(held, change))[..|held|] && Ids(blob) == Ids(Changed(blob, change))[..|blob|];
      WithOrWithout(Members(held), Members(blob), u);
    case Remove(u) =>
      WithoutMembers(held, u);
      WithoutMembers(blob, u);
    case Mark(_, _, _) =>
      assert Members(held) - {} == Members(held) && Members(blob) - {} == Members(blob);
  }

  lemma FreshStore(held: seq<Participant>, blob: seq<Participant>, change: Change)
    requires Ids(held) == Ids(blob)
    ensures |Changed(held, change)| <= |blob| + if change.Add? then 1 else 0
    ensures change.Mark? ==> Ids(Changed(held, change)) == Ids(blob)
    ensures change.Add? ==> Ids(Changed(held, change)) == Ids(blob) + [change.user]
    ensures change.Remove? ==> Members(Changed(held, change)) == Members(blob) - {change.user}
    ensures change.Remove? && Distinct(Ids(blob)) ==> Distinct(Ids(Changed(held, change)))
  {
    if change.Remove? { WithoutMembers(held, change.user); }
    if change.Add? { MembersOfAppend(held, NewMember(change.user)); }
  }

  // ---- fresh stores keep the limit ----

  ghost predicate Capped(s: State, k: nat) {
    |s.blob| + |Adds(s)| <= MAX_GROUP_PARTICIPANTS - 1 + k && |Adds(s)| <= k
  }

  lemma AddsAfter(e: Step, s: State, k: nat)
    requires Enabled(e, s, k)
    ensures Adds(Apply(e, s)) ==
      if e.Check? then Adds(s) + {e.p} else if e.Store? || e.Abandon? then Adds(s) - {e.p} else Adds(s)
    ensures e.Check? ==> e.p !in Adds(s)
    ensures e.Store? ==> (e.p in Adds(s) <==> s.calls[e.p].change.Add?)
  { }

  lemma CapStep(e: Step, s: State, k: nat)
    requires k >= 1 && Capped(s, k) && Enabled(e, s, k) && IsFresh(e, s)
    ensures Capped(Apply(e, s), k)
  {
    AddsAfter(e, s, k);
    SubsetSize(Adds(s) - {e.p}, Adds(s));
    if e.Store? { FreshStore(s.calls[e.p].held, s.blob, s.calls[e.p].change); }
  }

  /** Group size plus adds past their check never exceeds 49 + k, if every store is fresh. */
  lemma {:induction false} CapWithConcurrency(es: seq<Step>, blob: seq<Participant>, k: nat)
    requires k >= 1 && |blob| <= MAX_GROUP_PARTICIPANTS
    requires IsRun(es, Start(blob), k) && AllFresh(es, Start(blob))
    ensures Capped(After(es, Start(blob)), k)
    decreases |es|
  {
    if es == [] {
      assert Adds(Start(blob)) == {};
    } else {
      CapWithConcurrency(es[..|es| - 1], blob, k);
      CapStep(es[|es| - 1], After(es[..|es| - 1], Start(blob)), k);
    }
  }

  function AddedUser(c: Call): Id
    requires IsAdd(c)
  {
    if c.Checked? then c.user else c.change.user
  }

  ghost predicate NewcomersAreNew(s: State) {
    forall p :: p in Adds(s) ==> AddedUser(s.calls[p]) !in Ids(s.blob)
  }

  lemma AtMostOneAdd(s: State, p: nat, q: nat)
    requires |Adds(s)| <= 1 && p in Adds(s) && q in Adds(s)
    ensures p == q
  {
    SubsetSize({p, q}, Adds(s));
  }

  lemma NewcomersStep(e: Step, s: State)
    requires NewcomersAreNew(s) && Distinct(Ids(s.blob)) && Capped(s, 1) && Enabled(e, s, 1) && IsFresh(e, s)
    ensures NewcomersAreNew(Apply(e, s)) && Distinct(Ids(Apply(e, s).blob))
  {
    var s' := Apply(e, s);
    AddsAfter(e, s, 1);
    if e.Store? {
      var c := s.calls[e.p];
      FreshStore(c.held, s.blob, c.change);
      if c.change.Add? { assert AddedUser(c) !in Ids(s.blob); }
    }
    forall p | p in Adds(s') ensures AddedUser(s'.calls[p]) !in Ids(s'.blob) {
      if e.Store? && s.calls[e.p].change.Add? {
        AtMostOneAdd(s, p, e.p);
      } else if e.Store? && s.calls[e.p].change.Remove? {
        assert AddedUser(s.calls[p]) !in Members(s.blob);
        assert AddedUser(s.calls[p]) !in Members(s'.blob);
      } else if p != e.p {
        assert AddedUser(s.calls[p]) !in Ids(s.blob);
      }
    }
  }

  /** One add at a time, among fresh removals and read receipts: at most 50 users, all different. */
  lemma {:induction false} SequentialCap(es: seq<Step>, blob: seq<Participant>)
    requires |blob| <= MAX_GROUP_PARTICIPANTS && Distinct(Ids(blob))
    requires IsRun(es, Start(blob), 1) && AllFresh(es, Start(blob))
    ensures Distinct(Ids(After(es, Start(blob)).blob)) && |After(es, Start(blob)).blob| <= MAX_GROUP_PARTICIPANTS
    ensures NewcomersAreNew(After(es, Start(blob)))
    decreases |es|
  {
    CapWithConcurrency(es, blob, 1);
    if es == [] {
    } else {
      SequentialCap(es[..|es| - 1], blob);
      CapWithConcurrency(es[..|es| - 1], blob, 1);
      NewcomersStep(es[|es| - 1], After(es[..|es| - 1], Start(blob)));
    }
  }

  // ---- what makes stores fresh ----

  /** A call only reads the list while no other call is between its read and its write. */
  ghost predicate OneAtATime(es: seq<Step>, s: State) {
    es == [] || (OneAtATime(es[..|es| - 1], s) &&
                 ((es[|es| - 1].Load? || es[|es| - 1].LoadChange?) ==> NobodyHolds(After(es[..|es| - 1], s))))
  }

  predicate NobodyHolds(s: State) {
    forall p :: p in s.calls ==> !s.calls[p].Holding?
  }

  ghost predicate HolderIsCurrent(s: State) {
    && (forall p :: p in s.calls && s.calls[p].Holding? ==> s.calls[p].held == s.blob)
    && (forall p, q :: p in s.calls && q in s.calls && s.calls[p].Holding? && s.calls[q].Holding? ==> p == q)
  }

  /** Taking turns is enough: then every store is fresh, and the two limits above hold. */
  lemma {:induction false} TurnsMakeFresh(es: seq<Step>, blob: seq<Participant>, k: nat)
    requires IsRun(es, Start(blob), k) && OneAtATime(es, Start(blob))
    ensures AllFresh(es, Start(blob)) && HolderIsCurrent(After(es, Start(blob)))
    decreases |es|
  {
    if es == [] {
    } else {
      var e, s := es[|es| - 1], After(es[..|es| - 1], Start(blob));
      TurnsMakeFresh(es[..|es| - 1], blob, k);
      assert Enabled(e, s, k) && HolderIsCurrent(s);
    }
  }

  // ---- runs with a given outcome ----

  ghost predicate Leads(es: seq<Step>, s: State, s': State, k: nat, strict: bool) {
    IsRun(es, s, k) && After(es, s) == s' && (strict ==> AllFresh(es, s))
  }

  ghost predicate Reaches(s: State, s': State, k: nat, strict: bool) {
    exists es :: Leads(es, s, s', k, strict)
  }

  lemma ReachesItself(s: State, k: nat, strict: bool)
    ensures Reaches(s, s, k, strict)
  {
    assert Leads([], s, s, k, strict);
  }

  lemma ReachesNext(s: State, m: State, e: Step, k: nat, strict: bool)
    requires Reaches(s, m, k, strict) && Enabled(e, m, k) && (strict ==> IsFresh(e, m))
    ensures Reaches(s, Apply(e, m), k, strict)
  {
    var es :| Leads(es, s, m, k, strict);
    LeadsNext(es, s, m, e, k, strict);
  }

  lemma LeadsNext(es: seq<Step>, s: State, m: State, e: Step, k: nat, strict: bool)
    requires Leads(es, s, m, k, strict) && Enabled(e, m, k) && (strict ==> IsFresh(e, m))
    ensures Leads(es + [e], s, Apply(e, m), k, strict)
  {
    assert (es + [e])[..|es|] == es;
  }

  // ---- the bound is reached ----

  /** Calls lo to hi - 1 have each passed the check for the user. */
  function Waiting(lo: nat, hi: nat, user: Id): (calls: map<nat, Call>)
    ensures forall p :: p in calls <==> lo <= p < hi
    ensures forall p :: p in calls ==> calls[p] == Checked(user)
    decreases hi - lo
  {
    if lo >= hi then map[] else Waiting(lo + 1, hi, user)[lo := Checked(user)]
  }

  function Copies(user: Id, n: nat): seq<Id> {
    seq(n, _ => user)
  }

  lemma {:induction false} AddsWaiting(blob: seq<Participant>, lo: nat, hi: nat, user: Id)
    requires lo <= hi
    ensures |Adds(State(blob, Waiting(lo, hi, user)))| == hi - lo
    decreases hi - lo
  {
    var adds := Adds(State(blob, Waiting(lo, hi, user)));
    if lo == hi {
      assert adds == {};
    } else {
      AddsWaiting(blob, lo + 1, hi, user);
      assert adds == Adds(State(blob, Waiting(lo + 1, hi, user))) + {lo};
    }
  }

  lemma {:induction false} ManyChecks(blob: seq<Participant>, admin: Id, a: Id, k: nat, i: nat)
    requires |blob| < MAX_GROUP_PARTICIPANTS && a !in Ids(blob) && HasAdmin(blob, admin) && i <= k
    ensures Reaches(Start(blob), State(blob, Waiting(0, i, a)), k, true)
    decreases i
  {
    if i == 0 {
      ReachesItself(Start(blob), k, true);
      assert Waiting(0, 0, a) == map[];
    } else {
      ManyChecks(blob, admin, a, k, i - 1);
      AddsWaiting(blob, 0, i - 1, a);
      ReachesNext(Start(blob), State(blob, Waiting(0, i - 1, a)), Check(i - 1, admin, a), k, true);
      assert Waiting(0, i - 1, a)[i - 1 := Checked(a)] == Waiting(0, i, a);
    }
  }

  lemma {:induction false} ManyAppends(s0: State, blob: seq<Participant>, a: Id, k: nat, i: nat)
    returns (more: seq<Participant>)
    requires i <= k && Reaches(s0, State(blob, Waiting(0, k, a)), k, true)
    ensures Reaches(s0, State(more, Waiting(i, k, a)), k, true)
    ensures Ids(more) == Ids(blob) + Copies(a, i)
    decreases i
  {
    if i == 0 {
      more := blob;
    } else {
      more := ManyAppends(s0, blob, a, k, i - 1);
      AppendOne(s0, more, a, k, i - 1);
      MembersOfAppend(more, NewMember(a));
      assert Copies(a, i) == Copies(a, i - 1) + [a];
      more := more + [NewMember(a)];
    }
  }

  lemma AppendOne(s0: State, blob: seq<Participant>, a: Id, k: nat, p: nat)
    requires p < k && Reaches(s0, State(blob, Waiting(p, k, a)), k, true)
    ensures Reaches(s0, State(blob + [NewMember(a)], Waiting(p + 1, k, a)), k, true)
  {
    var s := State(blob, Waiting(p, k, a));
    ReachesNext(s0, s, Load(p), k, true);
    ReachesNext(s0, Apply(Load(p), s), Store(p), k, true);
    assert Waiting(p, k, a)[p := Holding(blob, Add(a))] - {p} == Waiting(p + 1, k, a);
  }

  /** For every k the bound is reached with fresh stores only, also by adding one user k times. */
  lemma CapIsTight(blob: seq<Participant>, admin: Id, a: Id, k: nat)
    requires |blob| == MAX_GROUP_PARTICIPANTS - 1 && a !in Ids(blob) && HasAdmin(blob, admin)
    ensures exists es :: IsRun(es, Start(blob), k) && AllFresh(es, Start(blob))
                         && Ids(After(es, Start(blob)).blob) == Ids(blob) + Copies(a, k)
  {
    ManyChecks(blob, admin, a, k, k);
    var more := ManyAppends(Start(blob), blob, a, k, k);
    var es :| Leads(es, Start(blob), State(more, Waiting(k, k, a)), k, true);
  }

  // ---- a stale store breaks it ----

  /** A read receipt that read the full group writes back a user who was removed in between and then
      added again: 51 entries, that user twice, with never more than one add in flight. */
  lemma StaleReceiptBreaksCap(blob: seq<Participant>, admin: Id, x: Id)
    requires |blob| == MAX_GROUP_PARTICIPANTS && Distinct(Ids(blob))
    requires HasAdmin(blob, admin) && x in Ids(blob) && x != admin
    ensures var receipt := Mark(admin, "", 0);
      var es := [LoadChange(0, receipt), LoadChange(1, Remove(x)), Store(1), Check(2, admin, x),
                 Store(0), Load(2), Store(2)];
      && IsRun(es, Start(blob), 1)
      && Ids(After(es, Start(blob)).blob) == Ids(blob) + [x]
      && !Distinct(Ids(After(es, Start(blob)).blob))
  {
    var receipt, rest := Mark(admin, "", 0), Without(blob, x);
    RemovalMakesRoom(blob, admin, x);
    AdminIsMember(blob, admin);
    var e3 := OvertakenReceipt(blob, admin, x);
    var s3 := State(rest, map[0 := Holding(blob, receipt)]);
    assert Adds(s3) == {};
    LeadsNext(e3, Start(blob), s3, Check(2, admin, x), 1, false);
    var e4 := e3 + [Check(2, admin, x)];
    var s4 := State(rest, map[0 := Holding(blob, receipt), 2 := Checked(x)]);
    LeadsNext(e4, Start(blob), s4, Store(0), 1, false);
    var e5 := e4 + [Store(0)];
    var s5 := State(MarkRead(blob, admin, "", 0), map[2 := Checked(x)]);
    assert s4.calls - {0} == s5.calls;
    LeadsNext(e5, Start(blob), s5, Load(2), 1, false);
    LeadsNext(e5 + [Load(2)], Start(blob), Apply(Load(2), s5), Store(2), 1, false);
    var es := e5 + [Load(2)] + [Store(2)];
    assert es == [LoadChange(0, receipt), LoadChange(1, Remove(x)), Store(1), Check(2, admin, x),
                  Store(0), Load(2), Store(2)];
    MembersOfAppend(s5.blob, NewMember(x));
    TwiceIsNotDistinct(Ids(blob), x);
  }

  lemma TwiceIsNotDistinct(ids: seq<Id>, x: Id)
    requires x in ids
    ensures !Distinct(ids + [x])
  {
    var i :| 0 <= i < |ids| && ids[i] == x;
    assert (ids + [x])[i] == (ids + [x])[|ids|];
  }

  /** The receipt has read the list, and then x is removed. */
  lemma OvertakenReceipt(blob: seq<Participant>, admin: Id, x: Id) returns (es: seq<Step>)
    requires admin in Ids(blob)
    ensures es == [LoadChange(0, Mark(admin, "", 0)), LoadChange(1, Remove(x)), Store(1)]
    ensures Leads(es, Start(blob), State(Without(blob, x), map[0 := Holding(blob, Mark(admin, "", 0))]), 1, false)
  {
    var receipt := Mark(admin, "", 0);
    var s1 := State(blob, map[0 := Holding(blob, receipt)]);
    var s2 := State(blob, map[0 := Holding(blob, receipt), 1 := Holding(blob, Remove(x))]);
    assert Leads([], Start(blob), Start(blob), 1, false);
    LeadsNext([], Start(blob), Start(blob), LoadChange(0, receipt), 1, false);
    LeadsNext([] + [LoadChange(0, receipt)], Start(blob), s1, LoadChange(1, Remove(x)), 1, false);
    LeadsNext([] + [LoadChange(0, receipt)] + [LoadChange(1, Remove(x))], Start(blob), s2, Store(1), 1, false);
    assert s2.calls - {1} == s1.calls;
    es := [] + [LoadChange(0, receipt)] + [LoadChange(1, Remove(x))] + [Store(1)];
  }

  lemma AdminIsMember(ps: seq<Participant>, admin: Id)
    requires HasAdmin(ps, admin)
    ensures admin in Ids(ps)
  {
    var i :| 0 <= i < |ps| && ps[i].userId == admin && ps[i].role == Admin;
    assert Ids(ps)[i] == admin;
  }

  lemma RemovalMakesRoom(blob: seq<Participant>, admin: Id, x: Id)
    requires Distinct(Ids(blob)) && HasAdmin(blob, admin) && x in Ids(blob) && x != admin
    ensures var rest := Without(blob, x);
      && |rest| < |blob| && Distinct(Ids(rest)) && HasAdmin(rest, admin)
      && Members(rest) == Members(blob) - {x} && x !in Ids(rest)
  {
    var rest := Without(blob, x);
    WithoutMembers(blob, x);
    WithoutKeepsAdmin(blob, x, admin);
    DistinctSize(Ids(blob));
    DistinctSize(Ids(rest));
    assert x in Members(blob);
    assert |Members(blob) - {x}| == |Members(blob)| - 1;
    assert x !in Members(rest);
  }

  lemma {:induction false} WithoutKeepsAdmin(ps: seq<Participant>, x: Id, admin: Id)
    requires HasAdmin(ps, admin) && x != admin
    ensures HasAdmin(Without(ps, x), admin)
    decreases |ps|
  {
    var front, last, n := ps[..|ps| - 1], ps[|ps| - 1], |ps| - 1;
    if HasAdmin(front, admin) {
      WithoutKeepsAdmin(front, x, admin);
      var rest := Without(front, x);
      var i :| 0 <= i < |rest| && rest[i].userId == admin && rest[i].role == Admin;
      assert Without(ps, x)[i] == rest[i];
    } else {
      var i :| 0 <= i < |ps| && ps[i].userId == admin && ps[i].role == Admin;
      assert forall j :: 0 <= j < n ==> front[j] == ps[j];
      assert i == n;
      assert Without(ps, x)[|Without(ps, x)| - 1] == last;
    }
  }

  /** One request after another takes out everybody but the admin. */
  lemma {:induction false} RemoveOthers(s0: State, blob: seq<Participant>, admin: Id, receipt: Call, k: nat)
    returns (rest: seq<Participant>)
    requires Reaches(s0, State(blob, map[0 := receipt]), k, false)
    requires Distinct(Ids(blob)) && HasAdmin(blob, admin)
    ensures Reaches(s0, State(rest, map[0 := receipt]), k, false)
    ensures HasAdmin(rest, admin) && Members(rest) == {admin} && |rest| == 1
    decreases |blob|
  {
    if x :| x in Ids(blob) && x != admin {
      RemovalMakesRoom(blob, admin, x);
      var s := State(blob, map[0 := receipt]);
      ReachesNext(s0, s, LoadChange(1, Remove(x)), k, false);
      ReachesNext(s0, Apply(LoadChange(1, Remove(x)), s), Store(1), k, false);
      assert map[0 := receipt][1 := Holding(blob, Remove(x))] - {1} == map[0 := receipt];
      rest := RemoveOthers(s0, Without(blob, x), admin, receipt, k);
    } else {
      rest := blob;
      var i :| 0 <= i < |blob| && blob[i].userId == admin && blob[i].role == Admin;
      assert Ids(blob)[i] == admin;
      assert Members(blob) == {admin};
      DistinctSize(Ids(blob));
    }
  }

  /** An id longer than all of these. */
  function Longer(ids: seq<Id>): (x: Id)
    ensures forall i :: 0 <= i < |ids| ==> |x| > |ids[i]|
  {
    if ids == [] then "x"
    else
      var y := Longer(ids[1..]);
      if |y| > |ids[0]| then y else ids[0] + "x"
  }

  /** Whatever its size, a group can grow by one more user. */
  lemma OneUserMore(s0: State, blob: seq<Participant>, admin: Id, k: nat) returns (more: seq<Participant>)
    requires k >= 1 && Reaches(s0, Start(blob), k, false)
    requires Distinct(Ids(blob)) && HasAdmin(blob, admin)
    ensures Reaches(s0, Start(more), k, false)
    ensures |more| == |blob| + 1 && Distinct(Ids(more)) && HasAdmin(more, admin)
  {
    var x, receipt := Longer(Ids(blob)), Mark(admin, "", 0);
    var i :| 0 <= i < |blob| && blob[i].userId == admin && blob[i].role == Admin;
    assert Ids(blob)[i] == admin && x !in Ids(blob);
    ReachesNext(s0, Start(blob), LoadChange(0, receipt), k, false);
    var call := Holding(blob, receipt);
    assert map[][0 := call] == map[0 := call];
    var rest := RemoveOthers(s0, blob, admin, call, k);
    StaleRestore(s0, rest, blob, admin, x, k);
    var marked := MarkRead(blob, admin, "", 0);
    more := marked + [NewMember(x)];
    MembersOfAppend(marked, NewMember(x));
    assert more[i].userId == admin && more[i].role == Admin;
  }

  lemma StaleRestore(s0: State, rest: seq<Participant>, blob: seq<Participant>, admin: Id, x: Id, k: nat)
    requires k >= 1 && Reaches(s0, State(rest, map[0 := Holding(blob, Mark(admin, "", 0))]), k, false)
    requires |rest| == 1 && Members(rest) == {admin} && HasAdmin(rest, admin) && x != admin
    ensures Reaches(s0, Start(MarkRead(blob, admin, "", 0) + [NewMember(x)]), k, false)
  {
    var receipt := Holding(blob, Mark(admin, "", 0));
    CheckBehindReceipt(s0, rest, receipt, admin, x, k);
    StoreReceipt(s0, rest, blob, admin, x, k);
    AppendLast(s0, MarkRead(blob, admin, "", 0), x, k);
  }

  lemma CheckBehindReceipt(s0: State, rest: seq<Participant>, receipt: Call, admin: Id, x: Id, k: nat)
    requires k >= 1 && !IsAdd(receipt) && Reaches(s0, State(rest, map[0 := receipt]), k, false)
    requires |rest| == 1 && Members(rest) == {admin} && HasAdmin(rest, admin) && x != admin
    ensures Reaches(s0, State(rest, map[0 := receipt, 1 := Checked(x)]), k, false)
  {
    var s := State(rest, map[0 := receipt]);
    assert Adds(s) == {} && x !in Members(rest);
    ReachesNext(s0, s, Check(1, admin, x), k, false);
    assert map[0 := receipt][1 := Checked(x)] == map[0 := receipt, 1 := Checked(x)];
  }

  lemma StoreReceipt(s0: State, rest: seq<Participant>, blob: seq<Participant>, admin: Id, x: Id, k: nat)
    requires Reaches(s0, State(rest, map[0 := Holding(blob, Mark(admin, "", 0)), 1 := Checked(x)]), k, false)
    ensures Reaches(s0, State(MarkRead(blob, admin, "", 0), map[1 := Checked(x)]), k, false)
  {
    var s := State(rest, map[0 := Holding(blob, Mark(admin, "", 0)), 1 := Checked(x)]);
    ReachesNext(s0, s, Store(0), k, false);
    assert s.calls - {0} == map[1 := Checked(x)];
  }

  lemma AppendLast(s0: State, blob: seq<Participant>, x: Id, k: nat)
    requires Reaches(s0, State(blob, map[1 := Checked(x)]), k, false)
    ensures Reaches(s0, Start(blob + [NewMember(x)]), k, false)
  {
    ReachesNext(s0, State(blob, map[1 := Checked(x)]), Load(1), k, false);
    var s := State(blob, map[1 := Holding(blob, Add(x))]);
    assert map[1 := Checked(x)][1 := Holding(blob, Add(x))] == s.calls;
    ReachesNext(s0, s, Store(1), k, false);
    assert s.calls - {1} == map[];
  }

  /** So without fresh stores there is no bound at all: from every group of different users with an
      admin, for every n from its size on, some run with at most k adds in flight, k being 1 or more,
      ends with n different users. */
  lemma {:induction false} NoBound(blob: seq<Participant>, admin: Id, k: nat, n: nat)
    requires k >= 1 && |blob| <= n && Distinct(Ids(blob)) && HasAdmin(blob, admin)
    ensures exists es :: IsRun(es, Start(blob), k) && |After(es, Start(blob)).blob| == n
                         && Distinct(Ids(After(es, Start(blob)).blob))
  {
    var more := GrowTo(blob, admin, k, n);
    var es :| Leads(es, Start(blob), Start(more), k, false);
  }

  lemma {:induction false} GrowTo(blob: seq<Participant>, admin: Id, k: nat, n: nat) returns (more: seq<Participant>)
    requires k >= 1 && |blob| <= n && Distinct(Ids(blob)) && HasAdmin(blob, admin)
    ensures Reaches(Start(blob), Start(more), k, false)
    ensures |more| == n && Distinct(Ids(more)) && HasAdmin(more, admin)
    decreases n
  {
    if n == |blob| {
      ReachesItself(Start(blob), k, false);
      more := blob;
    } else {
      more := GrowTo(blob, admin, k, n - 1);
      more := OneUserMore(Start(blob), more, admin, k);
    }
  }
}
