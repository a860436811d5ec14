/** Paging through a list whose sort keys change between the requests, as those of conversations do
    (internal/adapter/repository/conversation_repo.go:256-327): exactly when a walk can return one
    conversation twice. */
module ActivityWalks {
  import opened Basics
  import opened Paging

  /** The keys of a user's conversations, given the last activity of each. */
  ghost function KeysOf(activity: map<Id, int>): set<Cursor> {
    set c | c in activity :: Cursor(activity[c], c)
  }

  ghost predicate DistinctIds(ks: seq<Cursor>) {
    forall p, q :: 0 <= p < q < |ks| ==> ks[p].id != ks[q].id
  }

  /** The requests of a walk, each served at some moment; a moment is the listed conversations with
      their activity times. */
  ghost predicate IsActivityWalk(moments: seq<map<Id, int>>, at: seq<nat>, fs: seq<Fetch>, limit: nat) {
    && |at| == |fs| && (forall i :: 0 <= i < |at| ==> at[i] < |moments|)
    && (forall i, j :: 0 <= i <= j < |at| ==> at[i] <= at[j])
    && (forall i :: 0 <= i < |fs| ==> fs[i].stored == KeysOf(moments[at[i]]))
    && IsWalk(fs, limit)
  }

  ghost predicate IsRepeatingWalk(moments: seq<map<Id, int>>, at: seq<nat>, fs: seq<Fetch>, limit: nat) {
    IsActivityWalk(moments, at, fs, limit) && !DistinctIds(Returned(fs))
  }

  function KeyAt(moment: map<Id, int>, c: Id): Cursor
    requires c in moment
  {
    Cursor(moment[c], c)
  }

  /** Between moments m and n the time of c goes down, and at m there is a conversation d below c. */
  predicate IsLowered(moments: seq<map<Id, int>>, m: nat, n: nat, c: Id, d: Id) {
    && m <= n < |moments|
    && c in moments[m] && d in moments[m] && c in moments[n]
    && Older(KeyAt(moments[m], d), KeyAt(moments[m], c))
    && moments[n][c] < moments[m][c]
  }

  // ---- a repetition comes from a lowered time ----

  /** The pages on which two returned keys lie, in the order of the keys. */
  lemma {:induction false} PagesInOrder(fs: seq<Fetch>, p: nat, q: nat) returns (i: nat, j: nat)
    requires p < q < |Returned(fs)|
    ensures i <= j < |fs| && Returned(fs)[p] in fs[i].keys && Returned(fs)[q] in fs[j].keys
    decreases |fs|
  {
    var n := |fs| - 1;
    var before := Returned(fs[..n]);
    if q < |before| {
      i, j := PagesInOrder(fs[..n], p, q);
    } else {
      j := n;
      if p < |before| { i := PageOf(fs[..n], p); } else { i := n; }
    }
  }

  lemma {:induction false} PageOf(fs: seq<Fetch>, p: nat) returns (i: nat)
    requires p < |Returned(fs)|
    ensures i < |fs| && Returned(fs)[p] in fs[i].keys
    decreases |fs|
  {
    var n := |fs| - 1;
    if p < |Returned(fs[..n])| { i := PageOf(fs[..n], p); } else { i := n; }
  }

  lemma RepetitionIsLowered(moments: seq<map<Id, int>>, at: seq<nat>, fs: seq<Fetch>, limit: nat)
    returns (m: nat, n: nat, c: Id, d: Id)
    requires IsRepeatingWalk(moments, at, fs, limit)
    ensures IsLowered(moments, m, n, c, d)
  {
    var all := Returned(fs);
    var p, q :| 0 <= p < q < |all| && all[p].id == all[q].id;
    WalkDescends(fs, limit);
    OlderIrreflexive(all[p]);
    LessIrreflexive(all[p].id);
    var i, j := PagesInOrder(fs, p, q);
    assert IsAnswered(fs, i, limit) && IsAnswered(fs, j, limit);
    m, n, c := at[i], at[j], all[p].id;
    assert all[p] in KeysOf(moments[m]) && all[q] in KeysOf(moments[n]);
    assert Older(all[q], all[p]);
    var k :| k in fs[i].stored && Below(k, After(fs, i)) && k !in fs[i].keys;
    d := k.id;
    var x :| 0 <= x < |fs[i].keys| && fs[i].keys[x] == all[p];
  }

  // ---- a lowered time makes a repetition possible ----

  /** The newest key below a cursor. */
  lemma {:induction false} NewestBelow(stored: set<Cursor>, after: Option<Cursor>, x: Cursor) returns (y: Cursor)
    requires x in stored && Below(x, after)
    ensures y in stored && Below(y, after)
    ensures forall k :: k in stored && Below(k, after) && k != y ==> Older(k, y)
    decreases |stored|
  {
    var rest := stored - {x};
    if z :| z in rest && Below(z, after) {
      y := NewestBelow(rest, after, z);
      OlderTotal(x, y);
      if Older(y, x) {
        forall k | k in stored && Below(k, after) && k != x ensures Older(k, x) {
          if k != y { OlderTransitive(k, y, x); }
        }
        y := x;
      }
    } else {
      y := x;
    }
  }

  /** One more request for one key. */
  lemma OneMoreRequest(fs: seq<Fetch>, stored: set<Cursor>, x: Cursor) returns (f: Fetch)
    requires IsWalk(fs, 1) && (fs != [] ==> fs[|fs| - 1].hasMore)
    requires x in stored && Below(x, After(fs, |fs|))
    ensures IsWalk(fs + [f], 1) && f.stored == stored && |f.keys| == 1
    ensures var y := f.keys[0];
      && y in stored && Below(y, After(fs, |fs|)) && (y == x || Older(x, y))
      && (y != x ==> f.hasMore) && (f.hasMore ==> f.next == Some(y))
      && (f.hasMore <==> exists k :: k in stored && Below(k, After(fs, |fs|)) && k != y)
  {
    var after := After(fs, |fs|);
    var y := NewestBelow(stored, after, x);
    var more := MoreBelow(stored, after, [y]);
    f := Fetch(stored, [y], more, if more then Some(y) else None);
    forall i | 0 <= i < |fs + [f]| ensures IsAnswered(fs + [f], i, 1) {
      if i < |fs| { assert IsAnswered(fs, i, 1); } else { assert IsPage(stored, after, 1, [y], more, f.next); }
    }
    if y != x { assert x !in [y]; }
  }

  /** Requests for one key each, all served from the same keys, down to x. */
  lemma {:induction false} WalkDownTo(fs: seq<Fetch>, stored: set<Cursor>, x: Cursor) returns (more: seq<Fetch>)
    requires IsWalk(fs, 1) && (fs != [] ==> fs[|fs| - 1].hasMore)
    requires x in stored && Below(x, After(fs, |fs|))
    ensures IsWalk(fs + more, 1) && more != [] && forall i :: 0 <= i < |more| ==> more[i].stored == stored
    ensures var last := more[|more| - 1];
      && last.keys == [x]
      && ((exists k :: k in stored && Older(k, x)) ==> last.hasMore && last.next == Some(x))
    decreases |set k | k in stored && Below(k, After(fs, |fs|))|
  {
    var f := OneMoreRequest(fs, stored, x);
    var y := f.keys[0];
    assert (fs + [f])[|fs|] == f;
    if y == x {
      more := [f];
      if k :| k in stored && Older(k, x) { LowerIsBelow(k, x, After(fs, |fs|)); }
    } else {
      var left, now := set k | k in stored && Below(k, Some(y)), set k | k in stored && Below(k, After(fs, |fs|));
      forall k | k in left ensures k in now { LowerIsBelow(k, y, After(fs, |fs|)); }
      OlderIrreflexive(y);
      assert y in now && y !in left;
      SubsetSize(left + {y}, now);
      var rest := WalkDownTo(fs + [f], stored, x);
      more := [f] + rest;
      assert fs + more == fs + [f] + rest;
    }
  }

  lemma LowerIsBelow(k: Cursor, x: Cursor, after: Option<Cursor>)
    requires Older(k, x) && Below(x, after)
    ensures Below(k, after) && k != x
  {
    OlderIrreflexive(x);
    if after.Some? { OlderTransitive(k, x, after.value); }
  }

  lemma {:induction false} ReturnedGrows(fs: seq<Fetch>, more: seq<Fetch>)
    ensures Returned(fs) <= Returned(fs + more)
    decreases |more|
  {
    if more == [] {
      assert fs + more == fs;
    } else {
      var n := |more| - 1;
      ReturnedGrows(fs, more[..n]);
      assert (fs + more)[..|fs + more| - 1] == fs + more[..n];
    }
  }

  /** A key of the last page comes after everything that was returned before the last requests. */
  lemma LastComesAfter(fs: seq<Fetch>, more: seq<Fetch>, k: Cursor) returns (q: nat)
    requires more != [] && k in more[|more| - 1].keys
    ensures |Returned(fs)| <= q < |Returned(fs + more)| && Returned(fs + more)[q] == k
  {
    var n := |more| - 1;
    ReturnedGrows(fs, more[..n]);
    assert (fs + more)[..|fs + more| - 1] == fs + more[..n];
    var x :| 0 <= x < |more[n].keys| && more[n].keys[x] == k;
    q := |Returned(fs + more[..n])| + x;
  }

  lemma OnLastPage(fs: seq<Fetch>, k: Cursor) returns (p: nat)
    requires fs != [] && k in fs[|fs| - 1].keys
    ensures p < |Returned(fs)| && Returned(fs)[p] == k
  {
    var n := |fs| - 1;
    var x :| 0 <= x < |fs[n].keys| && fs[n].keys[x] == k;
    p := |Returned(fs[..n])| + x;
  }

  lemma TwoOfOneId(first: seq<Cursor>, all: seq<Cursor>, p: nat, q: nat)
    requires first <= all && p < |first| <= q < |all| && first[p].id == all[q].id
    ensures !DistinctIds(all)
  {
    assert all[p].id == all[q].id;
  }

  lemma LoweredRepeats(moments: seq<map<Id, int>>, m: nat, n: nat, c: Id, d: Id) returns (at: seq<nat>, fs: seq<Fetch>)
    requires IsLowered(moments, m, n, c, d)
    ensures IsRepeatingWalk(moments, at, fs, 1)
  {
    var x, y := KeyAt(moments[m], c), KeyAt(moments[n], c);
    assert KeyAt(moments[m], d) in KeysOf(moments[m]);
    var down := WalkDownTo([], KeysOf(moments[m]), x);
    assert [] + down == down;
    assert After(down, |down|) == Some(x);
    var again := WalkDownTo(down, KeysOf(moments[n]), y);
    fs := down + again;
    at := seq(|fs|, i => if i < |down| then m else n);
    SameIdTwice(down, again, x, y);
  }

  lemma SameIdTwice(down: seq<Fetch>, again: seq<Fetch>, x: Cursor, y: Cursor)
    requires down != [] && again != [] && x.id == y.id
    requires x in down[|down| - 1].keys && y in again[|again| - 1].keys
    ensures !DistinctIds(Returned(down + again))
  {
    var p := OnLastPage(down, x);
    var q := LastComesAfter(down, again, y);
    ReturnedGrows(down, again);
    TwoOfOneId(Returned(down), Returned(down + again), p, q);
  }

  /** Some walk returns a conversation twice exactly when, between two moments, the time goes down of
      one that was not the last in the list. */
  lemma WalkRepeatsIff(moments: seq<map<Id, int>>)
    ensures (exists at, fs, limit :: IsRepeatingWalk(moments, at, fs, limit))
            <==> exists m, n, c, d :: IsLowered(moments, m, n, c, d)
  {
    if at, fs, limit :| IsRepeatingWalk(moments, at, fs, limit) {
      var m, n, c, d := RepetitionIsLowered(moments, at, fs, limit);
    }
    if m, n, c, d :| IsLowered(moments, m, n, c, d) {
      var at, fs := LoweredRepeats(moments, m, n, c, d);
    }
  }

  ghost predicate TimesRise(moments: seq<map<Id, int>>) {
    forall m, n, c :: 0 <= m <= n < |moments| && c in moments[m] && c in moments[n] ==> moments[m][c] <= moments[n][c]
  }

  /** So none is returned twice while conversations only become more active. */
  lemma NoConversationTwice(moments: seq<map<Id, int>>, at: seq<nat>, fs: seq<Fetch>, limit: nat)
    requires IsActivityWalk(moments, at, fs, limit) && TimesRise(moments)
    ensures DistinctIds(Returned(fs))
  {
    if !DistinctIds(Returned(fs)) {
      var m, n, c, d := RepetitionIsLowered(moments, at, fs, limit);
      assert false;
    }
  }

  /** Whatever happens to the others, one untouched during a completed walk is returned exactly once. */
  lemma UntouchedConversationOnce(moments: seq<map<Id, int>>, at: seq<nat>, fs: seq<Fetch>, limit: nat,
                                  c: Id, time: int)
    requires IsActivityWalk(moments, at, fs, limit) && IsComplete(fs, limit)
    requires forall i :: 0 <= i < |at| ==> c in moments[at[i]] && moments[at[i]][c] == time
    ensures Cursor(time, c) in Returned(fs)
    ensures forall k :: k in Returned(fs) && k.id == c ==> k == Cursor(time, c)
    ensures Distinct(Returned(fs))
  {
    WalkReturnsEveryStableKey(fs, limit, Cursor(time, c));
    forall k | k in Returned(fs) && k.id == c ensures k == Cursor(time, c) {
      ReturnedWasStored(fs, limit, k);
      var i :| 0 <= i < |fs| && k in fs[i].keys && k in fs[i].stored;
      assert k in KeysOf(moments[at[i]]);
    }
  }
}
