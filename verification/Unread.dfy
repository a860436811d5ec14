/** internal/adapter/cache/cache_store.go: one hash of unread counts per user, against the history
    of what was sent and read. */
module Unread {
  import opened Basics

  type Counts = map<Id, map<Id, nat>>

  /** HINCRBY by one; the field and the hash come into being with it. */
  function Bump(m: Counts, user: Id, conversation: Id): Counts {
    var hash := if user in m then m[user] else map[];
    m[user := hash[conversation := (if conversation in hash then hash[conversation] else 0) + 1]]
  }

  /** HDEL. */
  function Clear(m: Counts, user: Id, conversation: Id): Counts {
    if user in m then m[user := m[user] - {conversation}] else m
  }

  function Count(m: Counts, user: Id, conversation: Id): nat {
    if user in m && conversation in m[user] then m[user][conversation] else 0
  }

  /** The loop at the end of SendMessage. */
  function BumpOthers(m: Counts, members: seq<Id>, sender: Id, conversation: Id): Counts {
    if members == [] then m
    else
      var before := BumpOthers(m, members[..|members| - 1], sender, conversation);
      var u := members[|members| - 1];
      if u == sender then before else Bump(before, u, conversation)
  }

  /** The same loop when some increments do not take effect; the loop goes on after a failure. */
  function BumpReached(m: Counts, members: seq<Id>, sender: Id, conversation: Id, fates: nat -> Fate): Counts {
    if members == [] then m
    else
      var n := |members| - 1;
      var before := BumpReached(m, members[..n], sender, conversation, fates);
      if members[n] == sender || fates(n) == Refused then before else Bump(before, members[n], conversation)
  }

  lemma {:induction false} AllReached(m: Counts, members: seq<Id>, sender: Id, conversation: Id, fates: nat -> Fate)
    requires forall n :: 0 <= n < |members| ==> fates(n) != Refused
    ensures BumpReached(m, members, sender, conversation, fates) == BumpOthers(m, members, sender, conversation)
    decreases |members|
  {
    if members == [] {
    } else {
      AllReached(m, members[..|members| - 1], sender, conversation, fates);
    }
  }

  class CacheStore {
    var unread: Counts

    constructor ()
      ensures unread == map[]
    {
      unread := map[];
    }

    method IncrementUnread(user: Id, conversation: Id, fate: Fate) returns (ok: bool)
      modifies this
      ensures ok == (fate == Done)
      ensures unread == if fate == Refused then old(unread) else Bump(old(unread), user, conversation)
      ensures forall u, c :: Count(unread, u, c) ==
                Count(old(unread), u, c) + if u == user && c == conversation && fate != Refused then 1 else 0
    {
      if fate != Refused {
        var hash := if user in unread then unread[user] else map[];
        hash := hash[conversation := (if conversation in hash then hash[conversation] else 0) + 1];
        unread := unread[user := hash];
      }
      ok := fate == Done;
    }

    method ClearUnread(user: Id, conversation: Id, fate: Fate) returns (ok: bool)
      modifies this
      ensures ok == (fate == Done)
      ensures unread == if fate == Refused then old(unread) else Clear(old(unread), user, conversation)
      ensures forall u, c :: Count(unread, u, c) ==
                if u == user && c == conversation && fate != Refused then 0 else Count(old(unread), u, c)
    {
      if fate != Refused && user in unread {
        unread := unread[user := unread[user] - {conversation}];
      }
      ok := fate == Done;
    }

    method GetUnreadCounts(user: Id, fate: Fate) returns (r: Result<map<Id, nat>>)
      ensures r.Ok? <==> fate == Done
      ensures r.Ok? ==> forall c :: (if c in r.value then r.value[c] else 0) == Count(unread, user, c)
    {
      if fate != Done { return Err(StoreFailure); }
      var result := if user in unread then unread[user] else map[];
      var counts: map<Id, nat> := map[];
      var rest := result.Keys;
      while rest != {}
        invariant rest <= result.Keys && counts.Keys == result.Keys - rest
        invariant forall c :: c in counts ==> counts[c] == result[c]
        decreases |rest|
      {
        var c :| c in rest;
        counts := counts[c := result[c]];
        rest := rest - {c};
      }
      r := Ok(counts);
    }
  }

  // ---- against the history ----

  datatype Event = Sent(conversation: Id, sender: Id, members: seq<Id>) | Read(user: Id, conversationRead: Id)

  function After(h: seq<Event>): Counts {
    if h == [] then map[]
    else match h[|h| - 1]
      case Sent(c, sender, members) => BumpOthers(After(h[..|h| - 1]), members, sender, c)
      case Read(u, c) => Clear(After(h[..|h| - 1]), u, c)
  }

  lemma AfterSend(h: seq<Event>, c: Id, sender: Id, members: seq<Id>)
    ensures After(h + [Sent(c, sender, members)]) == BumpOthers(After(h), members, sender, c)
  {
    assert (h + [Sent(c, sender, members)])[..|h|] == h;
  }

  lemma AfterRead(h: seq<Event>, u: Id, c: Id)
    ensures After(h + [Read(u, c)]) == Clear(After(h), u, c)
  {
    assert (h + [Read(u, c)])[..|h|] == h;
  }

  /** The message is one for u to read: sent to c by somebody else while u was a participant. */
  predicate IsFor(e: Event, u: Id, c: Id) {
    e.Sent? && e.conversation == c && e.sender != u && u in e.members
  }

  /** The sends to c for u since u last marked c as read. */
  ghost function UnreadSends(h: seq<Event>, u: Id, c: Id): set<int> {
    set i | 0 <= i < |h| && IsFor(h[i], u, c) && Read(u, c) !in h[i..]
  }

  function Occurrences(members: seq<Id>, u: Id): nat {
    if members == [] then 0
    else Occurrences(members[..|members| - 1], u) + (if members[|members| - 1] == u then 1 else 0)
  }

  lemma {:induction false} BumpOthersAdds(m: Counts, members: seq<Id>, sender: Id, conversation: Id, u: Id, c: Id)
    ensures Count(BumpOthers(m, members, sender, conversation), u, c) ==
            Count(m, u, c) + if c == conversation && u != sender then Occurrences(members, u) else 0
    decreases |members|
  {
    if members == [] {
    } else {
      BumpOthersAdds(m, members[..|members| - 1], sender, conversation, u, c);
    }
  }

  lemma {:induction false} OccursOnceIff(members: seq<Id>, u: Id)
    ensures Occurrences(members, u) == 0 <==> u !in members
    ensures Occurrences(members, u) <= 1 <==>
              forall i, j :: 0 <= i < j < |members| && members[i] == u ==> members[j] != u
    decreases |members|
  {
    if members == [] {
    } else {
      var front, last := members[..|members| - 1], members[|members| - 1];
      OccursOnceIff(front, u);
      assert members == front + [last];
      if last == u && u in front {
        var i :| 0 <= i < |front| && front[i] == u;
        assert members[i] == u && members[|members| - 1] == u;
      }
    }
  }

  /** The entries of a user whose increment took effect. */
  ghost function ReachedFor(members: seq<Id>, u: Id, fates: nat -> Fate): set<int> {
    set i | 0 <= i < |members| && members[i] == u && fates(i) != Refused
  }

  /** Whichever increments are lost, those of the others in this conversation count, and nothing else. */
  lemma {:induction false} BumpReachedAdds(m: Counts, members: seq<Id>, sender: Id, conversation: Id,
                                           fates: nat -> Fate, u: Id, c: Id)
    ensures Count(BumpReached(m, members, sender, conversation, fates), u, c) ==
            Count(m, u, c) + if c == conversation && u != sender then |ReachedFor(members, u, fates)| else 0
    decreases |members|
  {
    if members == [] {
      assert ReachedFor(members, u, fates) == {};
    } else {
      var n := |members| - 1;
      BumpReachedAdds(m, members[..n], sender, conversation, fates, u, c);
      ReachedOneMore(members, u, fates);
      var before := BumpReached(m, members[..n], sender, conversation, fates);
      if members[n] != sender && fates(n) != Refused { BumpAdds(before, members[n], conversation, u, c); }
    }
  }

  lemma BumpAdds(m: Counts, user: Id, conversation: Id, u: Id, c: Id)
    ensures Count(Bump(m, user, conversation), u, c) ==
            Count(m, u, c) + if u == user && c == conversation then 1 else 0
  { }

  lemma ReachedOneMore(members: seq<Id>, u: Id, fates: nat -> Fate)
    requires members != []
    ensures var n := |members| - 1;
      |ReachedFor(members, u, fates)| ==
      |ReachedFor(members[..n], u, fates)| + if members[n] == u && fates(n) != Refused then 1 else 0
  {
    var n := |members| - 1;
    var before, all := ReachedFor(members[..n], u, fates), ReachedFor(members, u, fates);
    var hit := members[n] == u && fates(n) != Refused;
    forall i ensures i in all <==> i in before || (hit && i == n) {
      if 0 <= i < n { assert members[..n][i] == members[i]; }
    }
    assert n !in before && all == if hit then before + {n} else before;
  }

  /** A send to these members adds one to the counter of each but the sender. */
  ghost predicate CountsOnce(m: Counts, members: seq<Id>, sender: Id, c: Id) {
    forall u :: u in members && u != sender ==>
      Count(BumpOthers(m, members, sender, c), u, c) == Count(m, u, c) + 1
  }

  /** A send adds exactly one to every other participant's counter exactly when no other participant
      is listed twice. */
  lemma SendAddsOneIff(m: Counts, members: seq<Id>, sender: Id, c: Id)
    ensures CountsOnce(m, members, sender, c)
            <==> forall i, j :: 0 <= i < j < |members| && members[i] != sender ==> members[i] != members[j]
  {
    forall u
      ensures Count(BumpOthers(m, members, sender, c), u, c) ==
              Count(m, u, c) + (if u != sender then Occurrences(members, u) else 0)
      ensures Occurrences(members, u) == 0 <==> u !in members
      ensures Occurrences(members, u) <= 1 <==>
                forall i, j :: 0 <= i < j < |members| && members[i] == u ==> members[j] != u
    {
      BumpOthersAdds(m, members, sender, c, u, c);
      OccursOnceIff(members, u);
    }
    if CountsOnce(m, members, sender, c) {
      forall i, j | 0 <= i < j < |members| && members[i] != sender ensures members[i] != members[j] {
        assert Occurrences(members, members[i]) <= 1;
      }
    }
  }

  lemma UnreadAfterRead(h: seq<Event>, v: Id, d: Id, u: Id, c: Id)
    ensures UnreadSends(h + [Read(v, d)], u, c) == if v == u && d == c then {} else UnreadSends(h, u, c)
  {
    var last, all := Read(v, d), h + [Read(v, d)];
    forall i | 0 <= i < |h| ensures all[i..] == h[i..] + [last] { }
    forall i | 0 <= i < |all| ensures last in all[i..] { assert all[i..][|h| - i] == last; }
    if !(v == u && d == c) {
      forall i ensures i in UnreadSends(all, u, c) <==> i in UnreadSends(h, u, c) {
        if 0 <= i < |h| { assert all[i..] == h[i..] + [last]; }
      }
    }
  }

  lemma UnreadAfterSend(h: seq<Event>, e: Event, u: Id, c: Id)
    requires e.Sent?
    ensures UnreadSends(h + [e], u, c) == UnreadSends(h, u, c) + if IsFor(e, u, c) then {|h|} else {}
  {
    var all := h + [e];
    assert all[|h|..] == [e];
    forall i ensures i in UnreadSends(all, u, c) <==> i in UnreadSends(h, u, c) || (i == |h| && IsFor(e, u, c)) {
      if 0 <= i < |h| { assert all[i..] == h[i..] + [e]; }
    }
  }

  /** The counter kept in Redis is the number of messages for u in c since u last read c, if no
      conversation lists a participant twice. */
  lemma {:induction false} CounterIsUnreadCount(h: seq<Event>, u: Id, c: Id)
    requires forall i :: 0 <= i < |h| && h[i].Sent? ==> Distinct(h[i].members)
    ensures Count(After(h), u, c) == |UnreadSends(h, u, c)|
    decreases |h|
  {
    if h == [] {
      assert UnreadSends(h, u, c) == {};
    } else {
      var front, last := h[..|h| - 1], h[|h| - 1];
      CounterIsUnreadCount(front, u, c);
      assert h == front + [last];
      match last
      case Read(v, d) => UnreadAfterRead(front, v, d, u, c);
      case Sent(d, sender, members) =>
        BumpOthersAdds(After(front), members, sender, d, u, c);
        OccursOnceIff(members, u);
        UnreadAfterSend(front, last, u, c);
        assert |front| !in UnreadSends(front, u, c);
    }
  }
}
