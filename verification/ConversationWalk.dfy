/** Paging through a user's conversations while they are being written to: the requests of a walk
    (internal/adapter/repository/conversation_repo.go) are served at points of any run of statements,
    whichever calls those belong to and wherever these were cut off. */
module ConversationWalks {
  import opened Basics
  import opened Conversations
  import opened ConversationStore
  import opened Paging
  import opened ActivityWalks
  import ConversationRepository

  /** The conversations listed for a user, with the time of their last activity. */
  function Activity(t: Tables, user: Id): map<Id, int> {
    map c | c in t.conversations && (user, c) in t.userConversations :: t.conversations[c].updatedAt
  }

  lemma KeysAreActivity(t: Tables, user: Id)
    ensures ConversationRepository.UserKeys(t, user) == KeysOf(Activity(t, user))
  {
    forall k ensures k in ConversationRepository.UserKeys(t, user) <==> k in KeysOf(Activity(t, user)) {
      if k in ConversationRepository.UserKeys(t, user) {
        assert k.id in Activity(t, user) && k == Cursor(Activity(t, user)[k.id], k.id);
      }
      if k in KeysOf(Activity(t, user)) {
        var c :| c in Activity(t, user) && k == Cursor(Activity(t, user)[c], c);
        assert k == ConversationRepository.ActivityKey(ConversationRepository.Loaded(t, c));
      }
    }
  }

  /** The statement does not write an activity time older than the one that is there. */
  predicate Rises(s: Statement, t: Tables) {
    match s
    case WriteRow(row) => row.id in t.conversations ==> t.conversations[row.id].updatedAt <= row.updatedAt
    case WriteParticipants(c, _, at) =>
      c in t.conversations && at.Some? ==> t.conversations[c].updatedAt <= at.value
    case WriteLastMessage(c, m) => c in t.conversations ==> t.conversations[c].updatedAt <= m.sentAt
    case _ => true
  }

  ghost predicate NoneEarlier(t: Tables, t': Tables) {
    forall c :: c in t.conversations ==>
      c in t'.conversations && t.conversations[c].updatedAt <= t'.conversations[c].updatedAt
  }

  /** That is exactly when no conversation moves down the list. */
  lemma RisesIff(s: Statement, t: Tables)
    ensures Rises(s, t) <==> NoneEarlier(t, Execute(s, t))
  {
    match s
    case WriteRow(row) => assert row.id in Execute(s, t).conversations;
    case WriteParticipants(c, _, _) => assert c in Execute(s, t).conversations;
    case WriteLastMessage(c, _) => assert c in Execute(s, t).conversations;
    case _ => assert Execute(s, t).conversations == t.conversations;
  }

  ghost predicate AllRise(ss: seq<Statement>, t: Tables) {
    forall i :: 0 <= i < |ss| ==> Rises(ss[i], Run(ss[..i], t))
  }

  lemma {:induction false} TimesOnlyRise(ss: seq<Statement>, t: Tables, m: nat, n: nat)
    requires AllRise(ss, t) && m <= n <= |ss|
    ensures NoneEarlier(Run(ss[..m], t), Run(ss[..n], t))
    decreases n
  {
    if m == n {
    } else {
      TimesOnlyRise(ss, t, m, n - 1);
      RunOneMore(ss, n - 1, t);
      OneMoreRises(Run(ss[..m], t), Run(ss[..n - 1], t), ss[n - 1]);
    }
  }

  lemma OneMoreRises(t0: Tables, t: Tables, s: Statement)
    requires NoneEarlier(t0, t) && Rises(s, t)
    ensures NoneEarlier(t0, Execute(s, t))
  {
    RisesIff(s, t);
  }

  /** The requests of a walk through the conversations of a user, each answered by FindByUser after
      some number of statements. */
  ghost predicate IsConversationWalk(ss: seq<Statement>, t: Tables, at: seq<nat>,
                                     fs: seq<Fetch>, user: Id, limit: nat) {
    && |at| == |fs| && (forall i :: 0 <= i < |at| ==> at[i] <= |ss|)
    && (forall i, j :: 0 <= i <= j < |at| ==> at[i] <= at[j])
    && (forall i :: 0 <= i < |fs| ==> fs[i].stored == ConversationRepository.UserKeys(Run(ss[..at[i]], t), user))
    && IsWalk(fs, limit)
  }

  /** What is listed for the user after each statement. */
  function Moments(ss: seq<Statement>, t: Tables, user: Id): (r: seq<map<Id, int>>)
    ensures |r| == |ss| + 1 && forall i :: 0 <= i < |r| ==> r[i] == Activity(Run(ss[..i], t), user)
  {
    seq(|ss| + 1, i requires 0 <= i <= |ss| => Activity(Run(ss[..i], t), user))
  }

  lemma SameWalk(ss: seq<Statement>, t: Tables, at: seq<nat>, fs: seq<Fetch>, user: Id, limit: nat)
    ensures IsConversationWalk(ss, t, at, fs, user, limit) <==> IsActivityWalk(Moments(ss, t, user), at, fs, limit)
  {
    if |at| == |fs| && forall i :: 0 <= i < |at| ==> at[i] <= |ss| {
      forall i | 0 <= i < |fs|
        ensures ConversationRepository.UserKeys(Run(ss[..at[i]], t), user) == KeysOf(Moments(ss, t, user)[at[i]])
      {
        KeysAreActivity(Run(ss[..at[i]], t), user);
      }
    }
  }

  ghost predicate IsRepeating(ss: seq<Statement>, t: Tables, at: seq<nat>, fs: seq<Fetch>, user: Id, limit: nat) {
    IsConversationWalk(ss, t, at, fs, user, limit) && !DistinctIds(Returned(fs))
  }

  /** A conversation that is in the user's list after m statements, with another one below it, is in
      the list after n statements with an older time. */
  predicate IsLoweredBetween(ss: seq<Statement>, t: Tables, user: Id, m: nat, n: nat, c: Id, d: Id)
    requires m <= n <= |ss|
  {
    var before, after := Activity(Run(ss[..m], t), user), Activity(Run(ss[..n], t), user);
    && c in before && d in before && c in after
    && Older(KeyAt(before, d), KeyAt(before, c))
    && after[c] < before[c]
  }

  lemma LoweredAtMoments(ss: seq<Statement>, t: Tables, user: Id, m: nat, n: nat, c: Id, d: Id)
    requires m <= n <= |ss|
    ensures IsLoweredBetween(ss, t, user, m, n, c, d) <==> IsLowered(Moments(ss, t, user), m, n, c, d)
  { }

  /** Whatever is written during it, some walk of the user returns a conversation twice exactly when
      the time of one that is not the user's last goes down between two moments. */
  lemma ConversationWalkRepeatsIff(ss: seq<Statement>, t: Tables, user: Id)
    ensures (exists at, fs, limit :: IsRepeating(ss, t, at, fs, user, limit))
            <==> exists m: nat, n: nat, c, d :: m <= n <= |ss| && IsLoweredBetween(ss, t, user, m, n, c, d)
  {
    if at, fs, limit :| IsRepeating(ss, t, at, fs, user, limit) {
      SameWalk(ss, t, at, fs, user, limit);
      var m, n, c, d := RepetitionIsLowered(Moments(ss, t, user), at, fs, limit);
      LoweredAtMoments(ss, t, user, m, n, c, d);
    }
    if m: nat, n: nat, c, d :| m <= n <= |ss| && IsLoweredBetween(ss, t, user, m, n, c, d) {
      LoweredAtMoments(ss, t, user, m, n, c, d);
      var at, fs := LoweredRepeats(Moments(ss, t, user), m, n, c, d);
      SameWalk(ss, t, at, fs, user, 1);
      assert IsRepeating(ss, t, at, fs, user, 1);
    }
  }

  /** In particular no walk does if no statement lowers an activity time. */
  lemma ConversationWalkOnce(ss: seq<Statement>, t: Tables, at: seq<nat>, fs: seq<Fetch>, user: Id, limit: nat)
    requires IsConversationWalk(ss, t, at, fs, user, limit) && AllRise(ss, t)
    ensures DistinctIds(Returned(fs))
  {
    var moments := Moments(ss, t, user);
    SameWalk(ss, t, at, fs, user, limit);
    forall m, n, c | 0 <= m <= n < |moments| && c in moments[m] && c in moments[n]
      ensures moments[m][c] <= moments[n][c]
    {
      TimesOnlyRise(ss, t, m, n);
    }
    NoConversationTwice(moments, at, fs, limit);
  }

  /** And one that stays listed and is not touched during a completed walk is returned exactly once,
      whatever happens to the others. */
  lemma UntouchedDuringWalk(ss: seq<Statement>, t: Tables, at: seq<nat>, fs: seq<Fetch>, user: Id, limit: nat,
                            c: Id, time: int)
    requires IsConversationWalk(ss, t, at, fs, user, limit) && IsComplete(fs, limit)
    requires forall i :: 0 <= i < |fs| ==>
      var now := Run(ss[..at[i]], t);
      c in now.conversations && (user, c) in now.userConversations && now.conversations[c].updatedAt == time
    ensures Cursor(time, c) in Returned(fs)
    ensures forall k :: k in Returned(fs) && k.id == c ==> k == Cursor(time, c)
    ensures Distinct(Returned(fs))
  {
    SameWalk(ss, t, at, fs, user, limit);
    UntouchedConversationOnce(Moments(ss, t, user), at, fs, limit, c, time);
  }

  // ---- a lowered time ----

  /** Two sends whose last-message writes arrive in the other order lower the time, although their
      messages were stamped in order. */
  lemma OvertakenWriteLowers(c: Id, earlier: LastMessage, later: LastMessage, t: Tables)
    requires c in t.conversations && t.conversations[c].updatedAt <= earlier.sentAt < later.sentAt
    ensures AllRise([WriteLastMessage(c, earlier), WriteLastMessage(c, later)], t)
    ensures !AllRise([WriteLastMessage(c, later), WriteLastMessage(c, earlier)], t)
  {
    var up := [WriteLastMessage(c, earlier), WriteLastMessage(c, later)];
    var down := [WriteLastMessage(c, later), WriteLastMessage(c, earlier)];
    assert up[..0] == [] && down[..0] == [];
    RunOneMore(up, 0, t);
    RunOneMore(down, 0, t);
    assert !Rises(down[1], Run(down[..1], t));
  }

  /** Then a conversation can come twice: it is returned first, falls below the cursor, and is
      returned again at the end. */
  lemma LoweredTimeRepeats(a: Id, b: Id, user: Id, t: Tables, m: LastMessage)
    requires a != b && t.conversations.Keys == {a, b} && t.userConversations == {(user, a), (user, b)}
    requires m.sentAt < t.conversations[b].updatedAt < t.conversations[a].updatedAt
    ensures var hi, mid, lo := t.conversations[a].updatedAt, t.conversations[b].updatedAt, m.sentAt;
      var before, now := {Cursor(hi, a), Cursor(mid, b)}, {Cursor(lo, a), Cursor(mid, b)};
      var fs := [Fetch(before, [Cursor(hi, a)], true, Some(Cursor(hi, a))),
                 Fetch(now, [Cursor(mid, b)], true, Some(Cursor(mid, b))),
                 Fetch(now, [Cursor(lo, a)], false, None)];
      && IsConversationWalk([WriteLastMessage(a, m)], t, [0, 1, 1], fs, user, 1)
      && Returned(fs) == [Cursor(hi, a), Cursor(mid, b), Cursor(lo, a)]
  {
    var hi, mid, lo := t.conversations[a].updatedAt, t.conversations[b].updatedAt, m.sentAt;
    var x, y, z := Cursor(hi, a), Cursor(mid, b), Cursor(lo, a);
    StoredBeforeAndNow(a, b, user, t, m);
    ThreeRequests(x, y, z);
  }

  lemma StoredBeforeAndNow(a: Id, b: Id, user: Id, t: Tables, m: LastMessage)
    requires a != b && t.conversations.Keys == {a, b} && t.userConversations == {(user, a), (user, b)}
    ensures var ss, y := [WriteLastMessage(a, m)], Cursor(t.conversations[b].updatedAt, b);
      && ConversationRepository.UserKeys(Run(ss[..0], t), user) == {Cursor(t.conversations[a].updatedAt, a), y}
      && ConversationRepository.UserKeys(Run(ss[..1], t), user) == {Cursor(m.sentAt, a), y}
  {
    var ss := [WriteLastMessage(a, m)];
    assert ss[..0] == [] && ss[..1] == ss;
    RunOne(ss[0], t);
    TwoKeys(t, user, a, b);
    TwoKeys(Run(ss, t), user, a, b);
  }

  lemma ThreeRequests(x: Cursor, y: Cursor, z: Cursor)
    requires z.createdAt < y.createdAt < x.createdAt
    ensures var fs := [Fetch({x, y}, [x], true, Some(x)), Fetch({z, y}, [y], true, Some(y)),
                       Fetch({z, y}, [z], false, None)];
      IsWalk(fs, 1) && Returned(fs) == [x, y, z]
  {
    var f0, f1 := Fetch({x, y}, [x], true, Some(x)), Fetch({z, y}, [y], true, Some(y));
    var f2 := Fetch({z, y}, [z], false, None);
    var fs := [f0, f1, f2];
    PageOfTwo(x, y, None);
    PageOfTwo(y, z, Some(x));
    assert {y, z} == {z, y};
    LastPage(z, y);
    assert fs[0].next == Some(x) && fs[1].next == Some(y);
    assert IsAnswered(fs, 0, 1) && IsAnswered(fs, 1, 1) && IsAnswered(fs, 2, 1);
    ReturnedOfThree(f0, f1, f2);
  }

  lemma ReturnedOfThree(f0: Fetch, f1: Fetch, f2: Fetch)
    ensures Returned([f0, f1, f2]) == f0.keys + f1.keys + f2.keys
  {
    assert [f0][..0] == [] && [f0, f1][..1] == [f0] && [f0, f1, f2][..2] == [f0, f1];
    assert Returned([f0]) == f0.keys;
    assert Returned([f0, f1]) == f0.keys + f1.keys;
  }

  lemma TwoKeys(t: Tables, user: Id, a: Id, b: Id)
    requires a != b && t.conversations.Keys == {a, b} && t.userConversations == {(user, a), (user, b)}
    ensures ConversationRepository.UserKeys(t, user)
            == {Cursor(t.conversations[a].updatedAt, a), Cursor(t.conversations[b].updatedAt, b)}
  {
    forall c | c in t.conversations && (user, c) in t.userConversations ensures c == a || c == b { }
    assert a in t.conversations && b in t.conversations;
  }

  lemma PageOfTwo(x: Cursor, y: Cursor, after: Option<Cursor>)
    requires y.createdAt < x.createdAt && (after.Some? ==> x.createdAt < after.value.createdAt)
    ensures IsPage({x, y}, after, 1, [x], true, Some(x))
  {
    assert Below(y, after) && y !in [x];
  }

  lemma LastPage(z: Cursor, y: Cursor)
    requires z.createdAt < y.createdAt
    ensures IsPage({z, y}, Some(y), 1, [z], false, None)
  {
    OlderIrreflexive(y);
  }
}
