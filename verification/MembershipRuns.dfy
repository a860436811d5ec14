/** The participants of one group and its two indexes under concurrent requests: adds and removals
    (internal/service/create_conversation.go:58-87) write the list, then the forward index, then the
    reverse index (internal/adapter/repository/conversation_repo.go:448-492), and the steps of other
    requests fall in between. No statement fails here once the list is written. */
module MembershipRuns {
  import opened Basics
  import opened Conversations
  import CS = ConversationStore
  import GC = GroupCap

  /** A call that has stored the list; sent of its two index statements are done. */
  datatype Writing = Writing(change: GC.Change, sent: nat)

  /** The list with the calls that have not stored it yet, the users the two indexes have for the
      group, and the calls that are writing the indexes. */
  datatype State = State(group: GC.State, forward: set<Id>, reverse: set<Id>, writing: map<nat, Writing>)

  datatype Step =
    | OnList(step: GC.Step)
    | Index(p: nat)

  ghost predicate Enabled(e: Step, s: State, k: nat) {
    match e
    case OnList(step) => GC.Enabled(step, s.group, k) && step.p !in s.writing
    case Index(p) => p in s.writing
  }

  /** The users an index has after the statement of a change. */
  function Put(users: set<Id>, change: GC.Change): set<Id> {
    match change
    case Add(u) => users + {u}
    case Remove(u) => users - {u}
    case Mark(_, _, _) => users
  }

  /** The call that a step of the group lets go on to the indexes. */
  predicate IsIndexed(step: GC.Step, s: State) {
    step.Store? && step.p in s.group.calls && s.group.calls[step.p].Holding? && !s.group.calls[step.p].change.Mark?
  }

  function Apply(e: Step, s: State): State {
    match e
    case OnList(step) =>
      var stored := s.(group := GC.Apply(step, s.group));
      if IsIndexed(step, s)
      then stored.(writing := s.writing[step.p := Writing(s.group.calls[step.p].change, 0)]) else stored
    case Index(p) =>
      if p !in s.writing then s
      else
        var Writing(change, n) := s.writing[p];
        if n == 0
        then s.(forward := Put(s.forward, change), writing := s.writing[p := Writing(change, 1)])
        else s.(reverse := Put(s.reverse, change), writing := s.writing - {p})
  }

  function After(es: seq<Step>, s: State): State {
    if es == [] then s else Apply(es[|es| - 1], After(es[..|es| - 1], s))
  }

  ghost predicate IsRun(es: seq<Step>, s: State, k: nat) {
    es == [] || (IsRun(es[..|es| - 1], s, k) && Enabled(es[|es| - 1], After(es[..|es| - 1], s), k))
  }

  ghost function Start(blob: seq<Participant>): State {
    State(GC.Start(blob), Members(blob), Members(blob), map[])
  }

  // ---- the statements behind the steps ----

  ghost function ForwardOf(t: CS.Tables, c: Id): set<Id> {
    set e | e in t.userConversations && e.1 == c :: e.0
  }

  ghost function ReverseOf(t: CS.Tables, c: Id): set<Id> {
    set e | e in t.conversationParticipants && e.0 == c :: e.1
  }

  /** They are the second and third statement the repository sends for an add and for a removal. */
  lemma PutIsWritten(c: Id, held: seq<Participant>, u: Id, now: int, t: CS.Tables)
    ensures var add := CS.AddScript(c, held, NewMember(u), now);
      && |add| == 3
      && ForwardOf(CS.Execute(add[1], t), c) == Put(ForwardOf(t, c), GC.Add(u))
      && ReverseOf(CS.Execute(add[2], t), c) == Put(ReverseOf(t, c), GC.Add(u))
    ensures var remove := CS.RemoveScript(c, held, u, now);
      && |remove| == 3
      && ForwardOf(CS.Execute(remove[1], t), c) == Put(ForwardOf(t, c), GC.Remove(u))
      && ReverseOf(CS.Execute(remove[2], t), c) == Put(ReverseOf(t, c), GC.Remove(u))
  {
    assert [u][..0] == [];
    ForwardWritten(c, u, t);
    ReverseWritten(c, u, t);
  }

  lemma ForwardWritten(c: Id, u: Id, t: CS.Tables)
    ensures ForwardOf(CS.Execute(CS.InsertForward(u, c), t), c) == ForwardOf(t, c) + {u}
    ensures ForwardOf(CS.Execute(CS.DeleteForward(u, c), t), c) == ForwardOf(t, c) - {u}
  {
    assert (u, c) in CS.Execute(CS.InsertForward(u, c), t).userConversations;
    forall v | v in ForwardOf(t, c) ensures (v, c) in t.userConversations { }
  }

  lemma ReverseWritten(c: Id, u: Id, t: CS.Tables)
    ensures ReverseOf(CS.Execute(CS.InsertReverse(c, u), t), c) == ReverseOf(t, c) + {u}
    ensures ReverseOf(CS.Execute(CS.DeleteReverse(c, u), t), c) == ReverseOf(t, c) - {u}
  {
    assert (c, u) in CS.Execute(CS.InsertReverse(c, u), t).conversationParticipants;
    forall v | v in ReverseOf(t, c) ensures (c, v) in t.conversationParticipants { }
  }

  // ---- calls about one user ----

  predicate IsAbout(change: GC.Change, u: Id) {
    !change.Mark? && change.user == u
  }

  ghost predicate Writes(s: State, p: nat, u: Id) {
    p in s.writing && IsAbout(s.writing[p].change, u)
  }

  ghost predicate Settled(s: State, u: Id) {
    forall p :: !Writes(s, p, u)
  }

  /** No add of u is writing the indexes while a removal of u is. */
  ghost predicate OneKind(s: State, u: Id) {
    forall p, q :: Writes(s, p, u) && Writes(s, q, u) ==> s.writing[p].change.Add? == s.writing[q].change.Add?
  }

  ghost predicate NeverCross(es: seq<Step>, s: State, u: Id) {
    OneKind(After(es, s), u) && (es != [] ==> NeverCross(es[..|es| - 1], s, u))
  }

  /** A call between its two index statements has left its mark in the forward index, and only such a
      call keeps the indexes apart. */
  ghost predicate IndexesFollow(s: State, u: Id) {
    && (forall p :: Writes(s, p, u) && s.writing[p].sent > 0 ==> (u in s.forward <==> s.writing[p].change.Add?))
    && ((u in s.forward <==> u in s.reverse) || exists p :: Writes(s, p, u) && s.writing[p].sent > 0)
  }

  lemma IndexesStep(e: Step, s: State, u: Id, k: nat)
    requires IndexesFollow(s, u) && OneKind(s, u) && Enabled(e, s, k)
    ensures IndexesFollow(Apply(e, s), u)
  {
    var s' := Apply(e, s);
    if e.OnList? {
      forall p | Writes(s, p, u) ensures Writes(s', p, u) && s'.writing[p] == s.writing[p] { }
      forall p | Writes(s', p, u) && s'.writing[p].sent > 0 ensures Writes(s, p, u) && s'.writing[p] == s.writing[p] { }
    } else {
      IndexStep(e.p, s, u);
    }
  }

  lemma IndexStep(p: nat, s: State, u: Id)
    requires IndexesFollow(s, u) && OneKind(s, u) && p in s.writing
    ensures IndexesFollow(Apply(Index(p), s), u)
  {
    var s' := Apply(Index(p), s);
    forall q | Writes(s', q, u) && q != p ensures Writes(s, q, u) && s'.writing[q] == s.writing[q] { }
    if Writes(s, p, u) {
      if s.writing[p].sent == 0 { assert Writes(s', p, u); }
    } else {
      forall q | Writes(s, q, u) ensures Writes(s', q, u) && s'.writing[q] == s.writing[q] { }
    }
  }

  lemma {:induction false} RunFollows(es: seq<Step>, s: State, u: Id, k: nat)
    requires IsRun(es, s, k) && IndexesFollow(s, u)
    requires es != [] ==> NeverCross(es[..|es| - 1], s, u)
    ensures IndexesFollow(After(es, s), u)
    decreases |es|
  {
    if es == [] {
    } else {
      var before := es[..|es| - 1];
      RunFollows(before, s, u, k);
      IndexesStep(es[|es| - 1], After(before, s), u, k);
    }
  }

  /** If the index writes of adds and removals of u never overlap, the two indexes say the same about u
      whenever no call is writing them for u. */
  lemma IndexesAgree(es: seq<Step>, blob: seq<Participant>, u: Id, k: nat)
    requires IsRun(es, Start(blob), k) && NeverCross(es, Start(blob), u)
    ensures var s := After(es, Start(blob)); Settled(s, u) ==> (u in s.forward <==> u in s.reverse)
  {
    RunFollows(es, Start(blob), u, k);
  }

  // ---- an overlap can always end in disagreement ----

  ghost predicate Finishes(es: seq<Step>, s: State, s': State, k: nat) {
    IsRun(es, s, k) && After(es, s) == s' && forall i :: 0 <= i < |es| ==> es[i].Index?
  }

  /** The index statements under way lead from s to s' in some order. */
  ghost predicate CanReach(s: State, s': State, k: nat) {
    exists es :: Finishes(es, s, s', k)
  }

  ghost predicate Disagrees(s: State, u: Id) {
    Settled(s, u) && !(u in s.forward <==> u in s.reverse)
  }

  lemma ReachesItself(s: State, k: nat)
    ensures CanReach(s, s, k)
  {
    assert Finishes([], s, s, k);
  }

  lemma ReachesNext(s: State, m: State, p: nat, k: nat)
    requires CanReach(s, m, k) && p in m.writing
    ensures CanReach(s, Apply(Index(p), m), k)
  {
    var es :| Finishes(es, s, m, k);
    FinishesNext(es, s, m, p, k);
  }

  lemma FinishesNext(es: seq<Step>, s: State, m: State, p: nat, k: nat)
    requires Finishes(es, s, m, k) && p in m.writing
    ensures Finishes(es + [Index(p)], s, Apply(Index(p), m), k)
  {
    assert (es + [Index(p)])[..|es|] == es;
  }

  /** One call sends what it has left. */
  lemma FinishCall(s: State, m: State, r: nat, k: nat) returns (m': State)
    requires CanReach(s, m, k) && r in m.writing
    ensures CanReach(s, m', k) && m'.writing == m.writing - {r}
  {
    m' := Apply(Index(r), m);
    ReachesNext(s, m, r, k);
    if m.writing[r].sent == 0 {
      ReachesNext(s, m', r, k);
      m' := Apply(Index(r), m');
    }
  }

  /** All calls about u but two finish. */
  lemma {:induction false} FinishOthers(s: State, m: State, u: Id, p: nat, q: nat, k: nat) returns (m': State)
    requires CanReach(s, m, k) && p in m.writing && q in m.writing
    ensures CanReach(s, m', k) && p in m'.writing && q in m'.writing
    ensures m'.writing[p] == m.writing[p] && m'.writing[q] == m.writing[q]
    ensures forall r :: Writes(m', r, u) ==> r == p || r == q
    decreases |m.writing|
  {
    if r :| Writes(m, r, u) && r != p && r != q {
      m' := FinishCall(s, m, r, k);
      assert m.writing.Keys == m'.writing.Keys + {r};
      m' := FinishOthers(s, m', u, p, q, k);
    } else {
      m' := m;
    }
  }

  /** A call about u sends its first index statement, if that is still to come. */
  lemma SendForward(s: State, m: State, p: nat, k: nat) returns (m': State)
    requires CanReach(s, m, k) && p in m.writing
    ensures CanReach(s, m', k) && p in m'.writing && m'.writing[p].change == m.writing[p].change
    ensures m'.writing[p].sent > 0 && m'.writing.Keys == m.writing.Keys
    ensures forall q :: q in m.writing && q != p ==> m'.writing[q] == m.writing[q]
  {
    m' := m;
    if m.writing[p].sent == 0 {
      ReachesNext(s, m, p, k);
      m' := Apply(Index(p), m);
    }
  }

  /** Two calls of different kinds, alone between their statements: the one whose kind the forward
      index shows finishes first. */
  lemma FinishCrossed(s: State, m: State, u: Id, p: nat, q: nat, k: nat) returns (m': State)
    requires CanReach(s, m, k) && Writes(m, p, u) && Writes(m, q, u)
    requires m.writing[p].sent > 0 && m.writing[q].sent > 0
    requires (u in m.forward <==> m.writing[p].change.Add?) && (u in m.forward <==> !m.writing[q].change.Add?)
    requires forall r :: Writes(m, r, u) ==> r == p || r == q
    ensures CanReach(s, m', k) && Disagrees(m', u)
  {
    ReachesNext(s, m, p, k);
    var m1 := Apply(Index(p), m);
    ReachesNext(s, m1, q, k);
    m' := Apply(Index(q), m1);
    forall r ensures !Writes(m', r, u) {
      if r in m'.writing { assert m'.writing[r] == m.writing[r] && r != p && r != q && !Writes(m, r, u); }
    }
  }

  lemma CrossedCanDisagree(s: State, u: Id, p: nat, q: nat, k: nat) returns (s': State)
    requires Writes(s, p, u) && Writes(s, q, u) && s.writing[p].change.Add? != s.writing[q].change.Add?
    ensures CanReach(s, s', k) && Disagrees(s', u)
  {
    ReachesItself(s, k);
    var m := FinishOthers(s, s, u, p, q, k);
    var m1 := SendForward(s, m, p, k);
    var m2 := SendForward(s, m1, q, k);
    forall r | Writes(m2, r, u) ensures r == p || r == q {
      if r != p && r != q { assert m2.writing[r] == m.writing[r] && Writes(m, r, u); }
    }
    if u in m2.forward <==> m2.writing[p].change.Add? {
      s' := FinishCrossed(s, m2, u, p, q, k);
    } else {
      s' := FinishCrossed(s, m2, u, q, p, k);
    }
  }

  lemma {:induction false} IndexesKeepOneKind(es: seq<Step>, s: State, s': State, u: Id, k: nat)
    requires Finishes(es, s, s', k) && OneKind(s, u)
    ensures NeverCross(es, s, u)
    decreases |es|
  {
    if es == [] {
    } else {
      var before, p := es[..|es| - 1], es[|es| - 1].p;
      IndexesKeepOneKind(before, s, After(before, s), u, k);
      forall q | Writes(s', q, u)
        ensures Writes(After(before, s), q, u) && s'.writing[q].change == After(before, s).writing[q].change
      { }
    }
  }

  /** And that is exact: after a step of a run without such overlaps so far, the index statements then
      under way can leave the indexes disagreeing about u exactly when the step made two overlap. */
  lemma DisagreementIff(es: seq<Step>, e: Step, blob: seq<Participant>, u: Id, k: nat)
    requires IsRun(es, Start(blob), k) && NeverCross(es, Start(blob), u)
    requires Enabled(e, After(es, Start(blob)), k)
    ensures var s := Apply(e, After(es, Start(blob)));
      (exists s' :: CanReach(s, s', k) && Disagrees(s', u)) <==> !OneKind(s, u)
  {
    var s := Apply(e, After(es, Start(blob)));
    RunFollows(es, Start(blob), u, k);
    IndexesStep(e, After(es, Start(blob)), u, k);
    if s' :| OneKind(s, u) && CanReach(s, s', k) && Disagrees(s', u) {
      var more :| Finishes(more, s, s', k);
      IndexesKeepOneKind(more, s, s', u, k);
      RunFollows(more, s, u, k);
      assert false;
    }
    if !OneKind(s, u) {
      var p, q :| Writes(s, p, u) && Writes(s, q, u) && s.writing[p].change.Add? != s.writing[q].change.Add?;
      var s' := CrossedCanDisagree(s, u, p, q, k);
    }
  }

  // ---- runs that get there ----

  lemma RunsOn(es: seq<Step>, e: Step, s: State, k: nat)
    requires IsRun(es, s, k) && Enabled(e, After(es, s), k)
    ensures IsRun(es + [e], s, k) && After(es + [e], s) == Apply(e, After(es, s))
  {
    assert (es + [e])[..|es|] == es;
  }

  lemma RunsOnTo(es: seq<Step>, step: GC.Step, s: State, m: State, group: GC.State)
    requires IsRun(es, s, 1) && After(es, s) == m && Enabled(OnList(step), m, 1) && !IsIndexed(step, m)
    requires GC.Apply(step, m.group) == group
    ensures IsRun(es + [OnList(step)], s, 1) && After(es + [OnList(step)], s) == m.(group := group)
  {
    RunsOn(es, OnList(step), s, 1);
  }

  /** A removal of x has been read and stored. */
  lemma RemovalStored(blob: seq<Participant>, x: Id) returns (es: seq<Step>)
    ensures es == [OnList(GC.LoadChange(0, GC.Remove(x))), OnList(GC.Store(0))]
    ensures IsRun(es, Start(blob), 1)
    ensures After(es, Start(blob)) == State(GC.Start(Without(blob, x)), Members(blob), Members(blob),
                                            map[0 := Writing(GC.Remove(x), 0)])
  {
    es := [];
    RunsOn(es, OnList(GC.LoadChange(0, GC.Remove(x))), Start(blob), 1);
    es := es + [OnList(GC.LoadChange(0, GC.Remove(x)))];
    assert After(es, Start(blob)).group == GC.State(blob, map[0 := GC.Holding(blob, GC.Remove(x))]);
    RunsOn(es, OnList(GC.Store(0)), Start(blob), 1);
    es := es + [OnList(GC.Store(0))];
    assert map[0 := GC.Holding(blob, GC.Remove(x))] - {0} == map[];
  }

  /** It happens in every group: a user is removed and added again before the removal has written the
      indexes. */
  lemma CrossingIsReachable(blob: seq<Participant>, admin: Id, x: Id) returns (s': State)
    requires |blob| <= MAX_GROUP_PARTICIPANTS && Distinct(Ids(blob))
    requires HasAdmin(blob, admin) && x in Ids(blob) && x != admin
    ensures var es := [OnList(GC.LoadChange(0, GC.Remove(x))), OnList(GC.Store(0)),
                       OnList(GC.Check(1, admin, x)), OnList(GC.Load(1)), OnList(GC.Store(1))];
      IsRun(es, Start(blob), 1) && CanReach(After(es, Start(blob)), s', 1) && Disagrees(s', x)
  {
    var rest := Without(blob, x);
    GC.RemovalMakesRoom(blob, admin, x);
    var es := RemovalStored(blob, x);
    var s := After(es, Start(blob));
    assert GC.Adds(s.group) == {};
    RunsOnTo(es, GC.Check(1, admin, x), Start(blob), s, GC.State(rest, map[1 := GC.Checked(x)]));
    es, s := es + [OnList(GC.Check(1, admin, x))], s.(group := GC.State(rest, map[1 := GC.Checked(x)]));
    var held := GC.State(rest, map[1 := GC.Holding(rest, GC.Add(x))]);
    assert GC.Apply(GC.Load(1), s.group).calls == held.calls;
    RunsOnTo(es, GC.Load(1), Start(blob), s, held);
    es, s := es + [OnList(GC.Load(1))], s.(group := held);
    RunsOn(es, OnList(GC.Store(1)), Start(blob), 1);
    es, s := es + [OnList(GC.Store(1))], Apply(OnList(GC.Store(1)), s);
    assert es == [OnList(GC.LoadChange(0, GC.Remove(x))), OnList(GC.Store(0)),
                  OnList(GC.Check(1, admin, x)), OnList(GC.Load(1)), OnList(GC.Store(1))];
    assert Writes(s, 0, x) && Writes(s, 1, x);
    s' := CrossedCanDisagree(s, x, 0, 1, 1);
  }

  /** And without any overlap of the index writes, a read receipt that was overtaken by a removal
      leaves the user in the list and in neither index. */
  lemma StaleReceiptSplits(blob: seq<Participant>, admin: Id, x: Id)
    requires admin in Ids(blob) && x in Ids(blob)
    ensures var es := [OnList(GC.LoadChange(1, GC.Mark(admin, "", 0))),
                       OnList(GC.LoadChange(0, GC.Remove(x))), OnList(GC.Store(0)),
                       Index(0), Index(0), OnList(GC.Store(1))];
      && IsRun(es, Start(blob), 1)
      && var s := After(es, Start(blob));
         s.writing == map[] && x in Members(s.group.blob) && x !in s.forward && x !in s.reverse
  {
    var receipt, removal := GC.Mark(admin, "", 0), GC.Holding(blob, GC.Remove(x));
    var call := GC.Holding(blob, receipt);
    var both := GC.State(blob, map[1 := call, 0 := removal]);
    var es: seq<Step> := [];
    RunsOnTo(es, GC.LoadChange(1, receipt), Start(blob), Start(blob), GC.State(blob, map[1 := call]));
    es := es + [OnList(GC.LoadChange(1, receipt))];
    RunsOnTo(es, GC.LoadChange(0, GC.Remove(x)), Start(blob), After(es, Start(blob)), both);
    es := es + [OnList(GC.LoadChange(0, GC.Remove(x)))];
    assert After(es, Start(blob)) == Start(blob).(group := both);
    RunsOn(es, OnList(GC.Store(0)), Start(blob), 1);
    es := es + [OnList(GC.Store(0))];
    assert both.calls - {0} == map[1 := call];
    assert After(es, Start(blob)) == BehindRemoval(blob, admin, x);
    ReceiptAfterRemoval(es, blob, admin, x);
    assert es + [Index(0), Index(0), OnList(GC.Store(1))]
           == [OnList(GC.LoadChange(1, receipt)), OnList(GC.LoadChange(0, GC.Remove(x))), OnList(GC.Store(0)),
               Index(0), Index(0), OnList(GC.Store(1))];
  }

  /** The receipt has read the list, and the removal has stored it. */
  ghost function BehindRemoval(blob: seq<Participant>, admin: Id, x: Id): State {
    Start(blob).(group := GC.State(Without(blob, x), map[1 := GC.Holding(blob, GC.Mark(admin, "", 0))]),
                 writing := map[0 := Writing(GC.Remove(x), 0)])
  }

  lemma ReceiptAfterRemoval(es: seq<Step>, blob: seq<Participant>, admin: Id, x: Id)
    requires IsRun(es, Start(blob), 1) && After(es, Start(blob)) == BehindRemoval(blob, admin, x) && x in Ids(blob)
    ensures var more := es + [Index(0), Index(0), OnList(GC.Store(1))];
      && IsRun(more, Start(blob), 1)
      && var s := After(more, Start(blob));
         s.writing == map[] && x in Members(s.group.blob) && x !in s.forward && x !in s.reverse
  {
    RunsOn(es, Index(0), Start(blob), 1);
    var s1 := Apply(Index(0), BehindRemoval(blob, admin, x));
    RunsOn(es + [Index(0)], Index(0), Start(blob), 1);
    var s2 := Apply(Index(0), s1);
    assert s2.writing == map[];
    RunsOn(es + [Index(0)] + [Index(0)], OnList(GC.Store(1)), Start(blob), 1);
    assert es + [Index(0)] + [Index(0)] + [OnList(GC.Store(1))] == es + [Index(0), Index(0), OnList(GC.Store(1))];
    assert Ids(MarkRead(blob, admin, "", 0)) == Ids(blob);
  }

  // ---- the list ----

  /** What a stored list says about u. */
  lemma ChangedAbout(held: seq<Participant>, change: GC.Change, u: Id)
    ensures u in Members(GC.Changed(held, change)) <==>
            if IsAbout(change, u) then change.Add? else u in Members(held)
  {
    GC.FreshStore(held, held, change);
    if change.Add? { MembersOfAppend(held, NewMember(change.user)); }
    assert change.Mark? ==> Members(GC.Changed(held, change)) == Members(held);
  }

  /** A store of a change that is not about u was based on a list that says about u what the row says. */
  ghost predicate FreshFor(e: Step, s: State, u: Id) {
    e.OnList? && e.step.Store? && e.step.p in s.group.calls && s.group.calls[e.step.p].Holding? ==>
      var call := s.group.calls[e.step.p];
      IsAbout(call.change, u) || (u in Members(call.held) <==> u in Members(s.group.blob))
  }

  ghost predicate AllFreshFor(es: seq<Step>, s: State, u: Id) {
    es == [] || (AllFreshFor(es[..|es| - 1], s, u) && FreshFor(es[|es| - 1], After(es[..|es| - 1], s), u))
  }

  /** Calls writing the indexes have left their mark in the list, and only such a call that has not
      written the forward index keeps that apart from the list. */
  ghost predicate ListAhead(s: State, u: Id) {
    && (forall p :: Writes(s, p, u) ==> (u in Members(s.group.blob) <==> s.writing[p].change.Add?))
    && ((u in Members(s.group.blob) <==> u in s.forward) || exists p :: Writes(s, p, u) && s.writing[p].sent == 0)
  }

  lemma ListStep(e: Step, s: State, u: Id, k: nat)
    requires ListAhead(s, u) && Enabled(e, s, k) && FreshFor(e, s, u) && OneKind(Apply(e, s), u)
    ensures ListAhead(Apply(e, s), u)
  {
    var s' := Apply(e, s);
    if e.Index? {
      ListIndexStep(e.p, s, u);
    } else {
      forall p | Writes(s, p, u) ensures Writes(s', p, u) && s'.writing[p] == s.writing[p] { }
      if e.step.Store? {
        var call := s.group.calls[e.step.p];
        ChangedAbout(call.held, call.change, u);
        if IsAbout(call.change, u) { assert Writes(s', e.step.p, u) && s'.writing[e.step.p].sent == 0; }
      }
    }
  }

  lemma ListIndexStep(p: nat, s: State, u: Id)
    requires ListAhead(s, u) && p in s.writing
    ensures ListAhead(Apply(Index(p), s), u)
  {
    var s' := Apply(Index(p), s);
    forall q | Writes(s', q, u) ensures Writes(s, q, u) && s'.writing[q].change == s.writing[q].change { }
    forall q | Writes(s, q, u) && q != p ensures Writes(s', q, u) && s'.writing[q] == s.writing[q] { }
  }

  lemma {:induction false} ListFollows(es: seq<Step>, s: State, u: Id, k: nat)
    requires IsRun(es, s, k) && NeverCross(es, s, u) && AllFreshFor(es, s, u) && ListAhead(s, u)
    ensures ListAhead(After(es, s), u)
    decreases |es|
  {
    if es == [] {
    } else {
      ListFollows(es[..|es| - 1], s, u, k);
      ListStep(es[|es| - 1], After(es[..|es| - 1], s), u, k);
    }
  }

  /** With such stores the list agrees with both indexes about u whenever no call is writing them for u. */
  lemma AllThreeAgree(es: seq<Step>, blob: seq<Participant>, u: Id, k: nat)
    requires IsRun(es, Start(blob), k) && NeverCross(es, Start(blob), u) && AllFreshFor(es, Start(blob), u)
    ensures var s := After(es, Start(blob));
      Settled(s, u) ==> (u in Members(s.group.blob) <==> u in s.forward)
                        && (u in Members(s.group.blob) <==> u in s.reverse)
  {
    IndexesAgree(es, blob, u, k);
    ListFollows(es, Start(blob), u, k);
  }

  /** That is exact too: a change about others keeps list and index in agreement about u exactly when
      the list it read says about u what the row says. */
  lemma StoreKeepsAgreementIff(p: nat, s: State, u: Id, k: nat)
    requires Enabled(OnList(GC.Store(p)), s, k) && !IsAbout(s.group.calls[p].change, u)
    requires u in Members(s.group.blob) <==> u in s.forward
    ensures var s' := Apply(OnList(GC.Store(p)), s);
      (u in Members(s'.group.blob) <==> u in s'.forward) <==> FreshFor(OnList(GC.Store(p)), s, u)
  {
    ChangedAbout(s.group.calls[p].held, s.group.calls[p].change, u);
  }

  // ---- together with the limit ----

  /** The steps on the list alone. */
  function ListSteps(es: seq<Step>): seq<GC.Step> {
    if es == [] then []
    else
      var last := es[|es| - 1];
      ListSteps(es[..|es| - 1]) + if last.OnList? then [last.step] else []
  }

  /** They are a run of the group; the index writes do not come into it. */
  lemma {:induction false} GroupRuns(es: seq<Step>, blob: seq<Participant>, k: nat)
    requires IsRun(es, Start(blob), k)
    ensures GC.IsRun(ListSteps(es), GC.Start(blob), k)
    ensures GC.After(ListSteps(es), GC.Start(blob)) == After(es, Start(blob)).group
    decreases |es|
  {
    if es == [] {
    } else {
      var before, last := es[..|es| - 1], es[|es| - 1];
      GroupRuns(before, blob, k);
      if last.OnList? { assert ListSteps(es)[..|ListSteps(es)| - 1] == ListSteps(before); }
      else { assert ListSteps(es) == ListSteps(before); }
    }
  }

  lemma {:induction false} FreshForAll(es: seq<Step>, blob: seq<Participant>, u: Id, k: nat)
    requires IsRun(es, Start(blob), k) && GC.AllFresh(ListSteps(es), GC.Start(blob))
    ensures AllFreshFor(es, Start(blob), u)
    decreases |es|
  {
    if es == [] {
    } else {
      var before, last := es[..|es| - 1], es[|es| - 1];
      GroupRuns(before, blob, k);
      if last.OnList? { assert ListSteps(es)[..|ListSteps(es)| - 1] == ListSteps(before); }
      else { assert ListSteps(es) == ListSteps(before); }
      FreshForAll(before, blob, u, k);
    }
  }

  /** One add at a time, every store fresh, no add of a user overlapping a removal of that user in the
      index writes: when nobody's index writes are under way, both indexes are the participants, at most 50. */
  lemma SettledGroup(es: seq<Step>, blob: seq<Participant>)
    requires |blob| <= MAX_GROUP_PARTICIPANTS && Distinct(Ids(blob))
    requires IsRun(es, Start(blob), 1) && GC.AllFresh(ListSteps(es), GC.Start(blob))
    requires forall u :: NeverCross(es, Start(blob), u) && Settled(After(es, Start(blob)), u)
    ensures var s := After(es, Start(blob));
      s.forward == s.reverse == Members(s.group.blob) && |s.forward| <= MAX_GROUP_PARTICIPANTS
  {
    var s := After(es, Start(blob));
    forall u ensures u in Members(s.group.blob) <==> u in s.forward
      ensures u in Members(s.group.blob) <==> u in s.reverse
    {
      FreshForAll(es, blob, u, 1);
      assert NeverCross(es, Start(blob), u);
      AllThreeAgree(es, blob, u, 1);
    }
    GroupRuns(es, blob, 1);
    GC.SequentialCap(ListSteps(es), blob);
    DistinctSize(Ids(s.group.blob));
  }
}
