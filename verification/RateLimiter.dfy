/** internal/adapter/cache/rate_limiter.go: one counter per user, incremented and given a fresh
    expiry by every call, allowed or not. INCR and EXPIRE are taken as one step; times are in
    milliseconds. */
module RateLimiting {
  import opened Basics

  const WINDOW := 60_000
  const MAX_CALLS := 60

  /** What Redis holds for a key. */
  datatype Counter = Counter(count: nat, expiresAt: int)

  ghost predicate Nondecreasing(times: seq<int>) {
    forall i, j :: 0 <= i <= j < |times| ==> times[i] <= times[j]
  }

  /** The counter after calls at these times: it restarts after a silence of a whole window. */
  function CountAfter(times: seq<int>): nat {
    if |times| <= 1 then |times|
    else if times[|times| - 1] - times[|times| - 2] < WINDOW then CountAfter(times[..|times| - 1]) + 1
    else 1
  }

  predicate Allowed(times: seq<int>, i: nat)
    requires i < |times|
  {
    CountAfter(times[..i + 1]) <= MAX_CALLS
  }

  /** The answer to the most recent call. */
  predicate LastAllowed(times: seq<int>) {
    times != [] && CountAfter(times) <= MAX_CALLS
  }

  /** Calls s to i follow one another with gaps under a window. */
  ghost predicate Unbroken(times: seq<int>, s: nat, i: nat)
    requires s <= i < |times|
  {
    forall k :: s < k <= i ==> times[k] - times[k - 1] < WINDOW
  }

  lemma {:induction false} CountGrows(times: seq<int>, s: nat, i: nat)
    requires s <= i < |times| && Unbroken(times, s, i)
    ensures CountAfter(times[..i + 1]) == CountAfter(times[..s + 1]) + (i - s)
    decreases i - s
  {
    if s == i {
    } else {
      CountGrows(times, s, i - 1);
      assert times[..i + 1][..i] == times[..i];
    }
  }

  /** A call is allowed exactly when it is among the first 60 of its run: s is where the maximal
      run of calls with gaps under 60 seconds that contains call i begins. */
  lemma AllowedIff(times: seq<int>, s: nat, i: nat)
    requires s <= i < |times| && Unbroken(times, s, i)
    requires s == 0 || times[s] - times[s - 1] >= WINDOW
    ensures Allowed(times, i) <==> i - s < MAX_CALLS
  {
    CountGrows(times, s, i);
    if s > 0 { assert times[..s + 1][s] - times[..s + 1][s - 1] >= WINDOW; }
  }

  /** The allowed calls that fall into the 60 seconds beginning at from. */
  ghost function AllowedIn(times: seq<int>, from: int): set<int> {
    set i | 0 <= i < |times| && from <= times[i] < from + WINDOW && Allowed(times, i)
  }

  function FirstFrom(times: seq<int>, from: int): (a: nat)
    ensures a <= |times|
    ensures forall i :: 0 <= i < a ==> times[i] < from
    ensures a < |times| ==> times[a] >= from
  {
    if times == [] || times[0] >= from then 0 else 1 + FirstFrom(times[1..], from)
  }

  function Interval(a: int, n: nat): (r: set<int>)
    ensures |r| == n && forall i :: i in r <==> a <= i < a + n
  {
    if n == 0 then {} else Interval(a, n - 1) + {a + n - 1}
  }

  /** Any 60 seconds, closed on the left and open on the right, contain at most 60 allowed calls. */
  lemma WindowBound(times: seq<int>, from: int)
    requires Nondecreasing(times)
    ensures |AllowedIn(times, from)| <= MAX_CALLS
  {
    var a := FirstFrom(times, from);
    var slots := Interval(a, MAX_CALLS);
    forall i | i in AllowedIn(times, from) ensures i in slots {
      assert a <= i;
      CountGrows(times, a, i);
      assert CountAfter(times[..a + 1]) >= 1;
    }
    SubsetSize(AllowedIn(times, from), slots);
  }

  lemma AllowedIsFixed(times: seq<int>, now: int, i: nat)
    requires i < |times|
    ensures Allowed(times + [now], i) <==> Allowed(times, i)
  {
    assert (times + [now])[..i + 1] == times[..i + 1];
  }

  /** Calls that were followed by something, each of them allowed. */
  lemma SuccessfulSendsBound(times: seq<int>, sent: set<int>, from: int)
    requires Nondecreasing(times)
    requires forall i :: i in sent ==> 0 <= i < |times| && Allowed(times, i)
    ensures |set i | i in sent && from <= times[i] < from + WINDOW| <= MAX_CALLS
  {
    WindowBound(times, from);
    var inWindow := set i | i in sent && from <= times[i] < from + WINDOW;
    SubsetSize(inWindow, AllowedIn(times, from));
  }

  lemma LaterIsNondecreasing(times: seq<int>, now: int)
    requires Nondecreasing(times) && (times != [] ==> times[|times| - 1] <= now)
    ensures Nondecreasing(times + [now])
  { }

  lemma OneMoreCall(times: seq<int>, now: int)
    ensures CountAfter(times + [now]) ==
      if times != [] && now < times[|times| - 1] + WINDOW then CountAfter(times) + 1 else 1
  {
    var t := times + [now];
    if times == [] {
      assert |t| == 1;
    } else {
      assert t[|t| - 1] == now && t[|t| - 2] == times[|times| - 1];
      assert t[..|t| - 1] == times;
    }
  }

  lemma LastAllowedIff(times: seq<int>)
    requires times != []
    ensures LastAllowed(times) <==> Allowed(times, |times| - 1)
  {
    assert times[..|times| - 1 + 1] == times;
  }

  ghost predicate Reflects(c: Counter, times: seq<int>) {
    && times != [] && Nondecreasing(times)
    && c.count == CountAfter(times) && c.expiresAt == times[|times| - 1] + WINDOW
  }

  /** What Redis answers to a call: a live counter is incremented, otherwise a new one starts. */
  function NextCount(c: Option<Counter>, now: int): nat {
    if c.Some? && now < c.value.expiresAt then c.value.count + 1 else 1
  }

  /** It goes on reflecting the calls, and the test on it is that of LastAllowed. */
  lemma NextReflects(c: Option<Counter>, times: seq<int>, now: int)
    requires if c.Some? then Reflects(c.value, times) else times == []
    requires times != [] ==> times[|times| - 1] <= now
    ensures Reflects(Counter(NextCount(c, now), now + WINDOW), times + [now])
    ensures LastAllowed(times + [now]) <==> NextCount(c, now) <= MAX_CALLS
  {
    OneMoreCall(times, now);
    LaterIsNondecreasing(times, now);
  }

  function CallsOf(calls: map<Id, seq<int>>, user: Id): seq<int> {
    if user in calls then calls[user] else []
  }

  /** The record of calls after one more that may not have reached Redis. */
  function CallsAfter(calls: map<Id, seq<int>>, user: Id, now: int, fate: Fate): map<Id, seq<int>> {
    if fate == Refused then calls else calls[user := CallsOf(calls, user) + [now]]
  }

  /** For each user, which of the calls ended in a successful send; all of them were allowed. */
  ghost predicate SendsAllowed(sends: map<Id, set<int>>, calls: map<Id, seq<int>>) {
    forall u, i :: u in sends && i in sends[u] ==> 0 <= i < |CallsOf(calls, u)| && Allowed(CallsOf(calls, u), i)
  }

  function SendsOf(sends: map<Id, set<int>>, user: Id): set<int> {
    if user in sends then sends[user] else {}
  }

  /** A further call keeps that, also when it is allowed and ends in a send. */
  lemma OneMoreSend(sends: map<Id, set<int>>, calls: map<Id, seq<int>>, user: Id, now: int, fate: Fate, sent: bool)
    requires SendsAllowed(sends, calls)
    requires sent ==> fate == Done && LastAllowed(CallsOf(calls, user) + [now])
    ensures var n := |CallsOf(calls, user)|;
      SendsAllowed(if sent then sends[user := SendsOf(sends, user) + {n}] else sends,
                   CallsAfter(calls, user, now, fate))
  {
    var before, calls' := CallsOf(calls, user), CallsAfter(calls, user, now, fate);
    var sends' := if sent then sends[user := SendsOf(sends, user) + {|before|}] else sends;
    forall u, i | u in sends' && i in sends'[u]
      ensures 0 <= i < |CallsOf(calls', u)| && Allowed(CallsOf(calls', u), i)
    {
      if sent && u == user && i == |before| {
        assert CallsOf(calls', u) == before + [now];
        LastAllowedIff(before + [now]);
      } else {
        assert u in sends && i in sends[u];
        if u == user && fate != Refused { AllowedIsFixed(before, now, i); }
      }
    }
  }

  class RateLimiter {
    var counters: map<Id, Counter>
    /** The times of each user's calls that reached Redis. */
    ghost var calls: map<Id, seq<int>>

    ghost predicate Valid()
      reads this
    {
      counters.Keys == calls.Keys && forall u :: u in counters ==> Reflects(counters[u], calls[u])
    }

    ghost function Calls(user: Id): seq<int>
      reads this
    {
      CallsOf(calls, user)
    }

    constructor ()
      ensures Valid() && calls == map[]
    {
      counters, calls := map[], map[];
    }

    /** The clock does not run backwards between the calls of one user. */
    method AllowMessage(user: Id, now: int, fate: Fate) returns (r: Result<bool>)
      requires Valid() && (Calls(user) != [] ==> Calls(user)[|Calls(user)| - 1] <= now)
      modifies this
      ensures Valid()
      ensures calls == CallsAfter(old(calls), user, now, fate)
      ensures r == if fate == Done then Ok(LastAllowed(Calls(user))) else Err(StoreFailure)
    {
      if fate == Refused { return Err(StoreFailure); }
      var counter := if user in counters then Some(counters[user]) else None;
      var count := NextCount(counter, now);
      ghost var times := Calls(user) + [now];
      NextReflects(counter, Calls(user), now);
      counters := counters[user := Counter(count, now + WINDOW)];
      calls := calls[user := times];
      assert Calls(user) == times;
      if fate == TimedOut { return Err(StoreFailure); }
      r := Ok(count <= MAX_CALLS);
    }
  }
}
