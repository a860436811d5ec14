/** Laws of whole sequences of service calls, told from the requests and the answers they got: what the
    counters, the limiter and the rows come to, without any record that the calls keep themselves. */
module RunLaws {
  import opened Basics
  import opened Conversations
  import opened MessageLaws
  import opened RateLimiting
  import opened ServiceSpec
  import opened Terms
  import CS = ConversationStore
  import Messages
  import MR = MessageRuns
  import MS = MessageStore
  import Reactions
  import SR = ServiceRuns
  import Unread

  /** The state in which call i of a sequence begins. */
  ghost function Before(rs: seq<Request>, i: nat): World
    requires i <= |rs|
  {
    SR.After(rs[..i], SR.EMPTY)
  }

  lemma OneCallMore(rs: seq<Request>, i: nat)
    requires i < |rs|
    ensures Before(rs[..|rs| - 1], i) == Before(rs, i)
  {
    assert rs[..|rs| - 1][..i] == rs[..i];
  }

  lemma LastCall(rs: seq<Request>)
    requires rs != []
    ensures SR.After(rs, SR.EMPTY) == Apply(rs[|rs| - 1], Before(rs, |rs| - 1))
  { }

  // ---- unread counters ----

  /** The caller of a send to c was told of success, and user is a participant other than the sender. */
  ghost predicate IsSentTo(r: Request, w: World, user: Id, c: Id) {
    && r.SendMessage? && r.cmd.conversationId == c && r.cmd.senderId != user
    && SendAnswer(r.cmd, r.id, r.now, r.fates, w).Ok?
    && c in w.conversations.conversations && IsListed(w.conversations.conversations[c].participants, user)
  }

  /** The user was told that c is marked as read. */
  ghost predicate IsReadBy(r: Request, w: World, user: Id, c: Id) {
    r.MarkAsRead? && r.user == user && r.c == c
    && MarkAnswer(w.conversations, w.messages, c, user, r.id, r.fate).None?
  }

  /** No increment and no clearing of the call is lost. */
  ghost predicate CacheWorks(r: Request) {
    && (r.SendMessage? ==> forall n :: r.fates.unread(n) != Refused)
    && (r.MarkAsRead? ==> r.fate(5) != Refused)
  }

  lemma CountedOnce(ps: seq<Participant>, user: Id, unread: nat -> Fate)
    requires Distinct(Ids(ps)) && forall n :: unread(n) != Refused
    ensures |Counted(ps, user, unread)| == if IsListed(ps, user) then 1 else 0
  {
    ListedIsMember(ps, user);
    if i :| 0 <= i < |ps| && ps[i].userId == user {
      assert Ids(ps)[i] == user;
      forall j | j in Counted(ps, user, unread) ensures j == i { assert Ids(ps)[j] == Ids(ps)[i]; }
      assert Counted(ps, user, unread) == {i};
    } else {
      assert Counted(ps, user, unread) == {};
    }
  }

  /** What a call means for one counter. */
  datatype Effect = Counts | Clears | Nothing

  ghost function EffectOf(r: Request, w: World, user: Id, c: Id): Effect {
    if IsReadBy(r, w, user, c) then Clears else if IsSentTo(r, w, user, c) then Counts else Nothing
  }

  function Tally(n: nat, e: Effect): nat {
    match e
    case Counts => n + 1
    case Clears => 0
    case Nothing => n
  }

  lemma EffectOfSend(cmd: SendCommand, id: Id, now: int, fates: SendFates, w: World, user: Id, c: Id)
    ensures EffectOf(Request.SendMessage(cmd, id, now, fates), w, user, c) ==
      if c == cmd.conversationId && cmd.senderId != user && SendAnswer(cmd, id, now, fates, w).Ok?
         && c in w.conversations.conversations && IsListed(w.conversations.conversations[c].participants, user)
      then Counts else Nothing
  { }

  lemma SendStep(cmd: SendCommand, id: Id, now: int, fates: SendFates, w: World, user: Id, c: Id)
    requires (forall n :: fates.unread(n) != Refused) && CS.AllWithinLimits(w.conversations)
    ensures var r := Request.SendMessage(cmd, id, now, fates);
      Unread.Count(Apply(r, w).unread, user, c) == Tally(Unread.Count(w.unread, user, c), EffectOf(r, w, user, c))
  {
    SendCountsLaw(cmd, id, now, fates, w, user, c);
    EffectOfSend(cmd, id, now, fates, w, user, c);
    var d := cmd.conversationId;
    if d in w.conversations.conversations {
      assert CS.WithinLimits(w.conversations.conversations[d].participants);
      CountedOnce(w.conversations.conversations[d].participants, user, fates.unread);
    }
  }

  lemma ReadStep(d: Id, reader: Id, id: Id, now: int, fate: nat -> Fate, w: World, user: Id, c: Id)
    requires fate(5) != Refused
    ensures var r := Request.MarkAsRead(d, reader, id, now, fate);
      Unread.Count(Apply(r, w).unread, user, c) == Tally(Unread.Count(w.unread, user, c), EffectOf(r, w, user, c))
  {
    ReadLaw(d, reader, id, now, fate, w);
  }

  /** One call adds one to a counter, clears it, or leaves it. */
  lemma CountStep(r: Request, w: World, user: Id, c: Id)
    requires CacheWorks(r) && CS.AllWithinLimits(w.conversations)
    ensures Unread.Count(Apply(r, w).unread, user, c)
            == Tally(Unread.Count(w.unread, user, c), EffectOf(r, w, user, c))
  {
    match r
    case SendMessage(cmd, id, now, fates) => SendStep(cmd, id, now, fates, w, user, c);
    case MarkAsRead(d, reader, id, now, fate) => ReadStep(d, reader, id, now, fate, w, user, c);
    case _ => OthersKeepCounters(r, w);
  }

  lemma OthersKeepCounters(r: Request, w: World)
    requires !r.SendMessage? && !r.MarkAsRead?
    ensures Apply(r, w).unread == w.unread
  { }

  /** Each call with the state in which it begins. */
  ghost function Steps(rs: seq<Request>): (steps: seq<(Request, World)>)
    ensures |steps| == |rs|
  {
    if rs == [] then [] else Steps(rs[..|rs| - 1]) + [(rs[|rs| - 1], Before(rs, |rs| - 1))]
  }

  lemma {:induction false} StepAt(rs: seq<Request>, i: nat)
    requires i < |rs|
    ensures Steps(rs)[i] == (rs[i], Before(rs, i))
    decreases |rs|
  {
    if i == |rs| - 1 {
    } else {
      StepAt(rs[..|rs| - 1], i);
      OneCallMore(rs, i);
    }
  }

  ghost function EffectsOf(steps: seq<(Request, World)>, user: Id, c: Id): (es: seq<Effect>)
    ensures |es| == |steps| && forall i :: 0 <= i < |steps| ==> es[i] == EffectOf(steps[i].0, steps[i].1, user, c)
  {
    seq(|steps|, i requires 0 <= i < |steps| => EffectOf(steps[i].0, steps[i].1, user, c))
  }

  lemma EffectsOneMore(steps: seq<(Request, World)>, r: Request, w: World, user: Id, c: Id)
    ensures EffectsOf(steps + [(r, w)], user, c) == EffectsOf(steps, user, c) + [EffectOf(r, w, user, c)]
  { }

  ghost function Effects(rs: seq<Request>, user: Id, c: Id): (es: seq<Effect>)
    ensures |es| == |rs|
  {
    EffectsOf(Steps(rs), user, c)
  }

  lemma EffectAt(rs: seq<Request>, i: nat, user: Id, c: Id)
    requires i < |rs|
    ensures Effects(rs, user, c)[i] == EffectOf(rs[i], Before(rs, i), user, c)
  {
    StepAt(rs, i);
  }

  ghost predicate IsClearedAfter(es: seq<Effect>, i: int) {
    exists j :: 0 <= j < |es| && i < j && es[j] == Clears
  }

  /** What has been counted and not cleared since. */
  ghost function Open(es: seq<Effect>): set<int> {
    set i | 0 <= i < |es| && es[i] == Counts && !IsClearedAfter(es, i)
  }

  lemma ClearedOneMore(es: seq<Effect>, e: Effect, i: nat)
    requires i < |es|
    ensures IsClearedAfter(es + [e], i) <==> e == Clears || IsClearedAfter(es, i)
  {
    var all := es + [e];
    if j :| 0 <= j < |es| && i < j && es[j] == Clears { assert all[j] == Clears; }
    if e == Clears { assert all[|es|] == Clears; }
  }

  lemma OpenOneMore(es: seq<Effect>, e: Effect)
    ensures |Open(es + [e])| == Tally(|Open(es)|, e)
  {
    var n, all := |es|, es + [e];
    forall i ensures i in Open(all) <==> e != Clears && (i in Open(es) || (i == n && e == Counts)) {
      if 0 <= i < n { ClearedOneMore(es, e, i); }
    }
    OneElementMore(Open(all), Open(es), n, e);
  }

  lemma OneElementMore(after: set<int>, before: set<int>, n: int, e: Effect)
    requires n !in before
    requires forall i :: i in after <==> e != Clears && (i in before || (i == n && e == Counts))
    ensures |after| == Tally(|before|, e)
  {
    match e
    case Counts =>
      forall i ensures i in after <==> i in before + {n} { }
      assert after == before + {n};
    case Clears =>
      forall i ensures i !in after { }
      assert after == {};
    case Nothing =>
      forall i ensures i in after <==> i in before { }
      assert after == before;
  }

  lemma {:induction false} CountersAreOpen(rs: seq<Request>, user: Id, c: Id)
    requires SR.IsRun(rs, SR.EMPTY) && forall i :: 0 <= i < |rs| ==> CacheWorks(rs[i])
    ensures Unread.Count(SR.After(rs, SR.EMPTY).unread, user, c) == |Open(Effects(rs, user, c))|
    decreases |rs|
  {
    if rs == [] {
      assert Open(Effects(rs, user, c)) == {};
    } else {
      var n, front := |rs| - 1, rs[..|rs| - 1];
      CountersAreOpen(front, user, c);
      LimitsHold(front);
      LastCall(rs);
      CountStep(rs[n], Before(rs, n), user, c);
      EffectsOneMore(Steps(front), rs[n], Before(rs, n), user, c);
      OpenOneMore(Effects(front, user, c), EffectOf(rs[n], Before(rs, n), user, c));
    }
  }

  lemma LimitsHold(rs: seq<Request>)
    requires SR.IsRun(rs, SR.EMPTY)
    ensures CS.AllWithinLimits(SR.After(rs, SR.EMPTY).conversations)
  {
    SR.RunSound(rs);
  }

  /** The sends to c for the user since the user last marked c as read. */
  ghost function UnreadSends(rs: seq<Request>, user: Id, c: Id): set<int> {
    set i | 0 <= i < |rs| && IsSentTo(rs[i], Before(rs, i), user, c)
            && !exists j :: i < j < |rs| && IsReadAt(rs, j, user, c)
  }

  ghost predicate IsReadAt(rs: seq<Request>, j: nat, user: Id, c: Id)
    requires j < |rs|
  {
    IsReadBy(rs[j], Before(rs, j), user, c)
  }

  lemma ReadClears(rs: seq<Request>, j: nat, user: Id, c: Id)
    requires j < |rs|
    ensures Effects(rs, user, c)[j] == Clears <==> IsReadAt(rs, j, user, c)
    ensures Effects(rs, user, c)[j] == Counts <==> IsSentTo(rs[j], Before(rs, j), user, c)
  {
    EffectAt(rs, j, user, c);
  }

  lemma OpenAreUnread(rs: seq<Request>, user: Id, c: Id)
    ensures Open(Effects(rs, user, c)) == UnreadSends(rs, user, c)
  {
    var es := Effects(rs, user, c);
    forall j: nat | j < |rs|
      ensures es[j] == Clears <==> IsReadAt(rs, j, user, c)
      ensures es[j] == Counts <==> IsSentTo(rs[j], Before(rs, j), user, c)
    {
      ReadClears(rs, j, user, c);
    }
    forall i: nat | i < |rs|
      ensures IsClearedAfter(es, i) <==> exists j :: i < j < |rs| && IsReadAt(rs, j, user, c)
    {
      if j :| i < j < |rs| && IsReadAt(rs, j, user, c) { assert es[j] == Clears; }
    }
  }

  /** In every sequence of calls in which no increment and no clearing is lost, whatever else fails, each
      counter is the number of sends to the conversation that were answered with success, came from
      somebody else while the user was a participant, and were followed by no successful reading. */
  lemma CountersFromAnswers(rs: seq<Request>, user: Id, c: Id)
    requires SR.IsRun(rs, SR.EMPTY) && forall i :: 0 <= i < |rs| ==> CacheWorks(rs[i])
    ensures Unread.Count(SR.After(rs, SR.EMPTY).unread, user, c) == |UnreadSends(rs, user, c)|
  {
    CountersAreOpen(rs, user, c);
    OpenAreUnread(rs, user, c);
  }

  // ---- the limiter ----

  /** The times of a user's sends whose call of the limiter took effect, whatever became of them. */
  function SendTimes(rs: seq<Request>, user: Id): seq<int> {
    if rs == [] then []
    else
      var r := rs[|rs| - 1];
      SendTimes(rs[..|rs| - 1], user)
      + if r.SendMessage? && r.cmd.senderId == user && r.fates.limiter != Refused then [r.now] else []
  }

  lemma {:induction false} CallsAreSends(rs: seq<Request>, user: Id)
    ensures CallsOf(SR.After(rs, SR.EMPTY).calls, user) == SendTimes(rs, user)
    decreases |rs|
  {
    if rs == [] {
    } else {
      CallsAreSends(rs[..|rs| - 1], user);
      CallStep(rs[|rs| - 1], SR.After(rs[..|rs| - 1], SR.EMPTY), user);
    }
  }

  lemma CallStep(r: Request, w: World, user: Id)
    ensures CallsOf(Apply(r, w).calls, user) == CallsOf(w.calls, user) +
      if r.SendMessage? && r.cmd.senderId == user && r.fates.limiter != Refused then [r.now] else []
  {
    if r.SendMessage? {
      SendKeepsCalls(r.cmd, r.id, r.now, r.fates, w);
    } else {
      OthersKeepCalls(r, w);
    }
  }

  lemma SendKeepsCalls(cmd: SendCommand, id: Id, now: int, fates: SendFates, w: World)
    ensures AfterSend(cmd, id, now, fates, w).calls == CallsAfter(w.calls, cmd.senderId, now, fates.limiter)
  {
    var w1, answer := AfterStoring(cmd, id, now, fates, w), SendAnswer(cmd, id, now, fates, w);
    assert w1.calls == CallsAfter(w.calls, cmd.senderId, now, fates.limiter);
    if answer.Ok? {
      SpreadKeepsCalls(answer.value, Ids(w.conversations.conversations[cmd.conversationId].participants), fates, w1);
    }
  }

  lemma SpreadKeepsCalls(m: Messages.MessageData, members: seq<Id>, fates: SendFates, w: World)
    ensures AfterSpreading(m, members, fates, w).calls == w.calls
    ensures AfterSpreading(m, members, fates, w).sends == w.sends
  { }

  lemma OthersKeepCalls(r: Request, w: World)
    requires !r.SendMessage?
    ensures Apply(r, w).calls == w.calls && Apply(r, w).sends == w.sends
  { }

  /** After every sequence, a send is refused for its rate exactly when it is not among the first 60 of the
      maximal run of the user's sends with gaps under 60 seconds; send s begins that run. */
  lemma RateLimitedIff(rs: seq<Request>, cmd: SendCommand, id: Id, now: int, fates: SendFates, s: nat)
    requires fates.limiter == Done
    requires var times := SendTimes(rs, cmd.senderId) + [now];
      && s < |times| && (forall k :: s < k < |times| ==> times[k] - times[k - 1] < 60_000)
      && (s == 0 || times[s] - times[s - 1] >= 60_000)
    ensures SendAnswer(cmd, id, now, fates, SR.After(rs, SR.EMPTY)) == Err(RateLimited)
            <==> |SendTimes(rs, cmd.senderId)| - s >= 60
  {
    var w := SR.After(rs, SR.EMPTY);
    CallsAreSends(rs, cmd.senderId);
    RateLimitedIfNotAllowed(cmd, id, now, fates, w);
    LastOfRunAllowed(SendTimes(rs, cmd.senderId) + [now], s);
  }

  lemma RateLimitedIfNotAllowed(cmd: SendCommand, id: Id, now: int, fates: SendFates, w: World)
    requires fates.limiter == Done
    ensures SendAnswer(cmd, id, now, fates, w) == Err(RateLimited) <==> !IsAllowed(cmd, now, w)
  {
    SendRefusalLaw(cmd, id, now, fates, w);
    SendAnswerLaw(cmd, id, now, fates, w);
  }

  lemma LastOfRunAllowed(times: seq<int>, s: nat)
    requires s < |times| && (forall k :: s < k < |times| ==> times[k] - times[k - 1] < 60_000)
    requires s == 0 || times[s] - times[s - 1] >= 60_000
    ensures LastAllowed(times) <==> |times| - 1 - s < 60
  {
    AllowedIff(times, s, |times| - 1);
    LastAllowedIff(times);
  }

  /** The user's sends of these 60 seconds that were answered with success. */
  ghost function SuccessfulSends(rs: seq<Request>, user: Id, from: int): set<int> {
    set i | 0 <= i < |rs| && IsSuccess(rs[i], Before(rs, i), user, from)
  }

  ghost predicate IsSuccess(r: Request, w: World, user: Id, from: int) {
    IsSentBy(r, w, user) && from <= r.now < from + 60_000
  }

  ghost predicate IsSentBy(r: Request, w: World, user: Id) {
    r.SendMessage? && r.cmd.senderId == user && SendAnswer(r.cmd, r.id, r.now, r.fates, w).Ok?
  }

  lemma {:induction false} SuccessesAreRecorded(rs: seq<Request>, user: Id, from: int)
    requires SR.IsRun(rs, SR.EMPTY)
    ensures |SuccessfulSends(rs, user, from)| == |SR.SendsWithin(SR.After(rs, SR.EMPTY), user, from)|
    decreases |rs|
  {
    if rs == [] {
      assert SuccessfulSends(rs, user, from) == {} && SR.SendsWithin(SR.EMPTY, user, from) == {};
    } else {
      var n, front := |rs| - 1, rs[..|rs| - 1];
      SuccessesAreRecorded(front, user, from);
      SR.RunSound(front);
      LastCall(rs);
      SuccessOneMore(rs, user, from);
      RecordOneMore(rs[n], Before(rs, n), user, from);
    }
  }

  lemma SuccessOneMore(rs: seq<Request>, user: Id, from: int)
    requires rs != []
    ensures var n := |rs| - 1;
      |SuccessfulSends(rs, user, from)| ==
      |SuccessfulSends(rs[..n], user, from)| + if IsSuccess(rs[n], Before(rs, n), user, from) then 1 else 0
  {
    var n, front := |rs| - 1, rs[..|rs| - 1];
    forall i | 0 <= i < n ensures i in SuccessfulSends(rs, user, from) <==> i in SuccessfulSends(front, user, from) {
      OneCallMore(rs, i);
    }
    OneMoreIf(SuccessfulSends(rs, user, from), SuccessfulSends(front, user, from), n,
              IsSuccess(rs[n], Before(rs, n), user, from));
  }

  lemma OneMoreIf(after: set<int>, before: set<int>, n: int, hit: bool)
    requires (forall i :: i in before ==> i < n) && (forall i :: i in after ==> i <= n)
    requires (forall i :: i < n ==> (i in after <==> i in before)) && (n in after <==> hit)
    ensures |after| == |before| + if hit then 1 else 0
  {
    var expected := if hit then before + {n} else before;
    forall i ensures i in after <==> i in expected {
      if i < n { assert i in after <==> i in before; }
    }
    assert after == expected;
  }

  /** The calls picked out of these times that fall into 60 seconds. */
  ghost function PickedWithin(picked: set<int>, times: seq<int>, from: int): set<int> {
    set i | i in picked && from <= TimeOf(times, i) < from + 60_000
  }

  lemma PickOneMore(picked: set<int>, times: seq<int>, now: int, from: int)
    requires forall i :: i in picked ==> 0 <= i < |times|
    ensures PickedWithin(picked, times + [now], from) == PickedWithin(picked, times, from)
    ensures |PickedWithin(picked + {|times|}, times + [now], from)| ==
            |PickedWithin(picked, times, from)| + if from <= now < from + 60_000 then 1 else 0
  {
    var n, hit := |times|, from <= now < from + 60_000;
    forall i | i in picked ensures TimeOf(times + [now], i) == TimeOf(times, i) { }
    assert PickedWithin(picked + {n}, times + [now], from) ==
           PickedWithin(picked, times, from) + if hit then {n} else {};
    assert n !in PickedWithin(picked, times, from);
  }

  lemma RecordStep(w: World, w': World, user: Id, reached: bool, ok: bool, now: int, from: int)
    requires forall i :: i in SendsOf(w.sends, user) ==> 0 <= i < |CallsOf(w.calls, user)|
    requires CallsOf(w'.calls, user) == CallsOf(w.calls, user) + if reached then [now] else []
    requires SendsOf(w'.sends, user) == SendsOf(w.sends, user) + if ok then {|CallsOf(w.calls, user)|} else {}
    requires ok ==> reached
    ensures |SR.SendsWithin(w', user, from)| ==
            |SR.SendsWithin(w, user, from)| + if ok && from <= now < from + 60_000 then 1 else 0
  {
    var picked, times := SendsOf(w.sends, user), CallsOf(w.calls, user);
    assert SR.SendsWithin(w, user, from) == PickedWithin(picked, times, from);
    assert SR.SendsWithin(w', user, from) == PickedWithin(SendsOf(w'.sends, user), CallsOf(w'.calls, user), from);
    assert reached || CallsOf(w'.calls, user) == times;
    assert ok || SendsOf(w'.sends, user) == picked;
    PickOneMore(picked, times, now, from);
  }

  lemma RecordOneMore(r: Request, w: World, user: Id, from: int)
    requires SendsAllowed(w.sends, w.calls)
    ensures |SR.SendsWithin(Apply(r, w), user, from)| == |SR.SendsWithin(w, user, from)| +
              if IsSuccess(r, w, user, from) then 1 else 0
  {
    CallStep(r, w, user);
    SendsStep(r, w, user);
    var now := if r.SendMessage? then r.now else 0;
    var reached := r.SendMessage? && r.cmd.senderId == user && r.fates.limiter != Refused;
    RecordStep(w, Apply(r, w), user, reached, IsSentBy(r, w, user), now, from);
  }

  lemma SendsStep(r: Request, w: World, user: Id)
    ensures SendsOf(Apply(r, w).sends, user) ==
            SendsOf(w.sends, user) + if IsSentBy(r, w, user) then {|CallsOf(w.calls, user)|} else {}
    ensures IsSentBy(r, w, user) ==> r.fates.limiter != Refused
  {
    if r.SendMessage? {
      SendRecords(r.cmd, r.id, r.now, r.fates, w);
      SendAnswerLaw(r.cmd, r.id, r.now, r.fates, w);
    } else {
      OthersKeepCalls(r, w);
    }
  }

  lemma SendRecords(cmd: SendCommand, id: Id, now: int, fates: SendFates, w: World)
    ensures AfterSend(cmd, id, now, fates, w).sends ==
      if SendAnswer(cmd, id, now, fates, w).Ok?
      then w.sends[cmd.senderId := SendsOf(w.sends, cmd.senderId) + {|CallsOf(w.calls, cmd.senderId)|}] else w.sends
  { }

  /** In every sequence, no user has more than 60 sends answered with success in any 60 seconds. */
  lemma SuccessesPerMinute(rs: seq<Request>, user: Id, from: int)
    requires SR.IsRun(rs, SR.EMPTY)
    ensures |SuccessfulSends(rs, user, from)| <= 60
  {
    SuccessesAreRecorded(rs, user, from);
    SR.SendsPerMinute(rs, user, from);
  }

  // ---- rows ----

  ghost predicate RowsOk(t: MS.Tables) {
    forall k :: k in t.messages ==> MR.ColumnsOk(t.messages[k])
  }

  lemma ChangeKeepsRows(id: Id, change: MR.Change, write: Fate, t: MS.Tables)
    requires RowsOk(t) && MS.LookupsOk(t)
    ensures RowsOk(MR.AfterChange(id, change, write, t))
  {
    if MS.Findable(t, id) && MR.Decide(id, MS.Read(t, id), change).Holding? {
      var k, m := KeyFor(t, id), MS.Read(t, id);
      StoredIsFindable(t, id);
      BuildShows(k, t.messages[k]);
      MR.ColumnsSurviveReading(k, t.messages[k]);
      MR.DecisionIsOneOf(id, m, change);
      MR.WriteIsOk(m, change, t);
    }
  }

  lemma StoreKeepsRows(cmd: SendCommand, id: Id, now: int, fates: SendFates, t: MS.Tables)
    requires RowsOk(t) && IsWellFormed(cmd)
    ensures RowsOk(AfterStore(Stamped(id, cmd, now), fates, t))
  { }

  lemma RequestKeepsRows(r: Request, w: World)
    requires RowsOk(w.messages) && MS.LookupsOk(w.messages)
    ensures RowsOk(Apply(r, w).messages)
  {
    match r
    case SendMessage(cmd, id, now, fates) =>
      SendRefusalLaw(cmd, id, now, fates, w);
      if RefusalOf(cmd, id, now, fates, w).None? { StoreKeepsRows(cmd, id, now, fates, w.messages); }
    case EditMessage(id, user, text, fate) => ChangeKeepsRows(id, MR.Edit(user, text), fate(2), w.messages);
    case DeleteMessage(id, user, fate) => ChangeKeepsRows(id, MR.Delete(user), fate(2), w.messages);
    case AddReaction(id, user, emoji, fate) => ChangeKeepsRows(id, MR.React(emoji, user), fate(5), w.messages);
    case RemoveReaction(id, user, emoji, fate) => ChangeKeepsRows(id, MR.Unreact(emoji, user), fate(4), w.messages);
    case _ =>
  }

  /** After every sequence, whatever fails: a reaction list has at most 20 emojis, each once and with 1 to
      50 users, no text is longer than 4096 bytes, and a deleted message is empty. */
  lemma {:induction false} ServiceRowsStayGood(rs: seq<Request>)
    requires SR.IsRun(rs, SR.EMPTY)
    ensures var t := SR.After(rs, SR.EMPTY).messages;
      forall k :: k in t.messages ==>
        var c := t.messages[k];
        && Reactions.Shape(c.reactions) && |c.text| <= 4096
        && (c.deleted ==> c.text == "" && c.mentions == [] && c.mediaUrl == "")
    ensures RowsOk(SR.After(rs, SR.EMPTY).messages)
    decreases |rs|
  {
    if rs == [] {
    } else {
      ServiceRowsStayGood(rs[..|rs| - 1]);
      LookupsHold(rs[..|rs| - 1]);
      RequestKeepsRows(rs[|rs| - 1], SR.After(rs[..|rs| - 1], SR.EMPTY));
    }
  }

  lemma LookupsHold(rs: seq<Request>)
    requires SR.IsRun(rs, SR.EMPTY)
    ensures MS.LookupsOk(SR.After(rs, SR.EMPTY).messages)
  {
    SR.RunSound(rs);
  }
}
