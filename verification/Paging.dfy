/** Cursor pagination (internal/domain/cursor.go). Both repositories page through keys
    (timestamp, id), newest first. IsPage says what one page is without saying how it is
    found; the walk theorems follow a client from page to page while the stored keys change. */
module Paging {
  import opened Basics

  /** A sort key and, at the end of a page, the cursor of the next one. */
  datatype Cursor = Cursor(createdAt: int, id: Id)

  const DEFAULT_PAGE_SIZE := 50
  const MAX_PAGE_SIZE := 100

  function Distance(a: int, b: int): nat {
    if a < b then b - a else a - b
  }

  /** The service bounds the requested limit before it reaches a repository: a positive limit becomes
      the nearest one allowed, no limit the default. */
  function NormalizeLimit(limit: int): (r: int)
    ensures 1 <= r <= 100
    ensures limit > 0 ==> forall k :: 1 <= k <= 100 ==> Distance(r, limit) <= Distance(k, limit)
    ensures limit <= 0 ==> r == 50
  {
    if limit <= 0 then DEFAULT_PAGE_SIZE else if limit > MAX_PAGE_SIZE then MAX_PAGE_SIZE else limit
  }

  /** A repository called directly still replaces a limit that is not positive. */
  function EffectiveLimit(limit: int): (r: nat)
    ensures r == if limit > 0 then limit else 50
  {
    if limit <= 0 then DEFAULT_PAGE_SIZE else limit
  }

  /** a sorts strictly after b in a list shown newest first. */
  predicate Older(a: Cursor, b: Cursor) {
    a.createdAt < b.createdAt || (a.createdAt == b.createdAt && Less(a.id, b.id))
  }

  lemma OlderTotal(a: Cursor, b: Cursor)
    ensures Older(a, b) || Older(b, a) || a == b
  {
    LessTotal(a.id, b.id);
  }

  lemma OlderIrreflexive(a: Cursor)
    ensures !Older(a, a)
  {
    LessIrreflexive(a.id);
  }

  lemma OlderTransitive(a: Cursor, b: Cursor, c: Cursor)
    requires Older(a, b) && Older(b, c)
    ensures Older(a, c)
  {
    if Less(a.id, b.id) && Less(b.id, c.id) { LessTransitive(a.id, b.id, c.id); }
  }

  lemma Order()
    ensures forall a, b {:trigger Older(a, b)} :: Older(a, b) ==> !Older(b, a)
    ensures forall a {:trigger Older(a, a)} :: !Older(a, a)
    ensures forall a, b, c {:trigger Older(a, b), Older(b, c)} :: Older(a, b) && Older(b, c) ==> Older(a, c)
  {
    forall a { OlderIrreflexive(a); }
    forall a, b, c | Older(a, b) && Older(b, c) { OlderTransitive(a, b, c); }
  }

  ghost predicate Descending(ks: seq<Cursor>) {
    forall i, j :: 0 <= i < j < |ks| ==> Older(ks[j], ks[i])
  }

  lemma DescendingIsDistinct(ks: seq<Cursor>)
    requires Descending(ks)
    ensures Distinct(ks)
  {
    forall i, j | 0 <= i < j < |ks| ensures ks[i] != ks[j] { OlderIrreflexive(ks[i]); }
  }

  predicate Below(k: Cursor, after: Option<Cursor>) {
    after.None? || Older(k, after.value)
  }

  /** ks are the newest n of the stored keys below the cursor, newest first; fewer only when
      there are fewer. */
  ghost predicate Newest(stored: set<Cursor>, after: Option<Cursor>, n: nat, ks: seq<Cursor>) {
    && Descending(ks)
    && |ks| <= n
    && (forall k :: k in ks ==> k in stored && Below(k, after))
    && (forall k :: k in stored && Below(k, after) && k !in ks ==> |ks| == n)
    && (forall k, i :: k in stored && Below(k, after) && k !in ks && 0 <= i < |ks| ==> Older(k, ks[i]))
  }

  ghost predicate MoreBelow(stored: set<Cursor>, after: Option<Cursor>, ks: seq<Cursor>) {
    exists k :: k in stored && Below(k, after) && k !in ks
  }

  /** The abstract page: items, whether anything is left, and the cursor to go on from. */
  ghost predicate IsPage(stored: set<Cursor>, after: Option<Cursor>, limit: nat,
                         ks: seq<Cursor>, hasMore: bool, next: Option<Cursor>) {
    && Newest(stored, after, limit, ks)
    && hasMore == MoreBelow(stored, after, ks)
    && next == (if hasMore && |ks| > 0 then Some(ks[|ks| - 1]) else None)
  }

  /** There is only one newest-n list ... */
  lemma {:induction false} NewestAgreeAt(stored: set<Cursor>, after: Option<Cursor>, n: nat,
                                         p: seq<Cursor>, q: seq<Cursor>, i: nat)
    requires Newest(stored, after, n, p) && Newest(stored, after, n, q)
    requires i <= |p| && i <= |q|
    ensures p[..i] == q[..i]
    decreases i
  {
    if i == 0 {
    } else {
      NewestAgreeAt(stored, after, n, p, q, i - 1);
      var a, b := p[i - 1], q[i - 1];
      assert a in p && b in q;
      OlderTotal(a, b);
      if Older(a, b) { AgreeStep(stored, after, n, p, q, i - 1); }
      if Older(b, a) { AgreeStep(stored, after, n, q, p, i - 1); }
      assert p[..i] == p[..i - 1] + [a] && q[..i] == q[..i - 1] + [b];
    }
  }

  lemma AgreeStep(stored: set<Cursor>, after: Option<Cursor>, n: nat,
                  p: seq<Cursor>, q: seq<Cursor>, i: nat)
    requires Newest(stored, after, n, p) && Newest(stored, after, n, q)
    requires i < |p| && i < |q| && p[..i] == q[..i]
    ensures !Older(p[i], q[i])
  {
    Order();
    assert q[i] in q;
  }

  /** ... so two implementations that both produce the page produce the same page. */
  lemma PageUnique(stored: set<Cursor>, after: Option<Cursor>, limit: nat,
                   p: seq<Cursor>, pMore: bool, pNext: Option<Cursor>,
                   q: seq<Cursor>, qMore: bool, qNext: Option<Cursor>)
    requires IsPage(stored, after, limit, p, pMore, pNext)
    requires IsPage(stored, after, limit, q, qMore, qNext)
    ensures p == q && pMore == qMore && pNext == qNext
  {
    NewestNotShorter(stored, after, limit, p, q);
    NewestNotShorter(stored, after, limit, q, p);
    NewestAgreeAt(stored, after, limit, p, q, |p|);
    assert p == p[..|p|] && q == q[..|p|];
  }

  lemma NewestNotShorter(stored: set<Cursor>, after: Option<Cursor>, n: nat, p: seq<Cursor>, q: seq<Cursor>)
    requires Newest(stored, after, n, p) && Newest(stored, after, n, q)
    ensures |p| >= |q|
  {
    if |p| < |q| {
      NewestAgreeAt(stored, after, n, p, q, |p|);
      var x := q[|p|];
      assert x in q;
      DescendingIsDistinct(q);
      if x in p {
        var j :| 0 <= j < |p| && p[j] == x;
        assert false;
      }
    }
  }

  // ---- the two ways of computing a page ----

  /** Cutting the sorted list: start is the first key below the cursor, or the end of the list. */
  ghost predicate IsStart(ks: seq<Cursor>, after: Option<Cursor>, start: nat) {
    && start <= |ks|
    && (forall i :: 0 <= i < start ==> !Below(ks[i], after))
    && (start < |ks| ==> Below(ks[start], after))
  }

  lemma BelowFrom(ks: seq<Cursor>, after: Option<Cursor>, start: nat)
    requires Descending(ks) && IsStart(ks, after, start)
    ensures forall i :: 0 <= i < |ks| ==> (Below(ks[i], after) <==> start <= i)
  {
    forall i | start <= i < |ks| ensures Below(ks[i], after) {
      if i > start && after.Some? { OlderTransitive(ks[i], ks[start], after.value); }
    }
  }

  lemma SliceIsNewest(ks: seq<Cursor>, after: Option<Cursor>, limit: nat, start: nat, end: nat)
    requires Descending(ks) && IsStart(ks, after, start)
    requires end == if start + limit < |ks| then start + limit else |ks|
    ensures Newest(Elements(ks), after, limit, ks[start..end])
    ensures forall k :: k in Elements(ks) && Below(k, after) && k !in ks[start..end] ==> k in ks[end..]
  {
    var items := ks[start..end];
    BelowFrom(ks, after, start);
    forall k | k in items ensures k in Elements(ks) && Below(k, after) {
      var i :| 0 <= i < |items| && items[i] == k;
      assert k == ks[start + i];
    }
    forall k | k in Elements(ks) && Below(k, after) && k !in items
      ensures k in ks[end..] && start + limit < |ks| && forall i :: 0 <= i < |items| ==> Older(k, items[i])
    {
      var j := PastTheSlice(ks, after, start, end, k);
      forall i | 0 <= i < |items| ensures Older(k, items[i]) { assert items[i] == ks[start + i]; }
    }
  }

  lemma PastTheSlice(ks: seq<Cursor>, after: Option<Cursor>, start: nat, end: nat, k: Cursor) returns (j: nat)
    requires IsStart(ks, after, start) && start <= end <= |ks|
    requires k in ks && Below(k, after) && k !in ks[start..end]
    ensures end <= j < |ks| && ks[j] == k && k in ks[end..]
  {
    j :| 0 <= j < |ks| && ks[j] == k;
    forall i | start <= i < end ensures ks[i] != k { assert ks[start..end][i - start] == ks[i]; }
    assert ks[end..][j - end] == k;
  }

  lemma SliceIsPage(ks: seq<Cursor>, after: Option<Cursor>, limit: nat, start: nat, end: nat)
    requires Descending(ks) && IsStart(ks, after, start) && limit >= 1
    requires end == if start + limit < |ks| then start + limit else |ks|
    ensures IsPage(Elements(ks), after, limit, ks[start..end], start + limit < |ks|,
                   if start + limit < |ks| then Some(ks[end - 1]) else None)
  {
    SliceIsNewest(ks, after, limit, start, end);
    if start + limit < |ks| {
      BelowFrom(ks, after, start);
      DescendingIsDistinct(ks);
      var k := ks[end];
      assert k in Elements(ks) && Below(k, after) && k !in ks[start..end];
    } else {
      assert ks[end..] == [];
    }
  }

  /** Reading one row more than asked for and dropping it. */
  lemma ExtraRowIsPage(stored: set<Cursor>, after: Option<Cursor>, limit: nat, rows: seq<Cursor>)
    requires Newest(stored, after, limit + 1, rows) && limit >= 1
    ensures
      var items := if |rows| > limit then rows[..limit] else rows;
      IsPage(stored, after, limit, items, |rows| > limit, if |rows| > limit then Some(rows[limit - 1]) else None)
  {
    Order();
    if |rows| > limit {
      var items := rows[..limit];
      var extra := rows[limit];
      assert rows == items + [extra];
      assert extra in rows;
      assert extra !in items;
      forall k | k in stored && Below(k, after) && k !in items
        ensures forall i :: 0 <= i < |items| ==> Older(k, items[i])
      {
        if k in rows { assert k == extra; }
      }
    }
  }

  /** On any sorted list of keys, with any cursor (also one that matches no key) and any limit, the
      two computations give the same items, the same flag and the same next cursor. */
  lemma BothPagesAgree(ks: seq<Cursor>, after: Option<Cursor>, limit: nat, start: nat, rows: seq<Cursor>)
    requires Descending(ks) && IsStart(ks, after, start) && limit >= 1
    requires Newest(Elements(ks), after, limit + 1, rows)
    ensures
      var end := if start + limit < |ks| then start + limit else |ks|;
      var sliced, read := ks[start..end], if |rows| > limit then rows[..limit] else rows;
      && sliced == read && (start + limit < |ks| <==> |rows| > limit)
      && (|rows| > limit ==> ks[end - 1] == rows[limit - 1])
  {
    var end := if start + limit < |ks| then start + limit else |ks|;
    SliceIsPage(ks, after, limit, start, end);
    ExtraRowIsPage(Elements(ks), after, limit, rows);
    PageUnique(Elements(ks), after, limit,
      ks[start..end], start + limit < |ks|, if start + limit < |ks| then Some(ks[end - 1]) else None,
      if |rows| > limit then rows[..limit] else rows, |rows| > limit,
      if |rows| > limit then Some(rows[limit - 1]) else None);
  }

  /** The clustering order of the store: the newest n keys of a partition below a cursor. */
  method SelectNewest(partition: set<Cursor>, after: Option<Cursor>, n: nat) returns (ks: seq<Cursor>)
    ensures Newest(partition, after, n, ks)
  {
    var rest := set k | k in partition && Below(k, after);
    ghost var all := rest;
    ks := [];
    while rest != {}
      invariant rest <= all
      invariant Descending(ks)
      invariant Elements(ks) == all - rest
      decreases |rest|
    {
      var k :| k in rest;
      assert k !in Elements(ks);
      ks := InsertNewestFirst(ks, k);
      rest := rest - {k};
    }
    if |ks| > n {
      PrefixOfAll(partition, after, ks, n);
      ks := ks[..n];
    } else {
      assert forall k :: k in ks <==> k in Elements(ks);
    }
  }

  method InsertNewestFirst(ks: seq<Cursor>, k: Cursor) returns (r: seq<Cursor>)
    requires Descending(ks) && k !in ks
    ensures Descending(r) && Elements(r) == Elements(ks) + {k}
  {
    var i := 0;
    while i < |ks| && Older(k, ks[i])
      invariant 0 <= i <= |ks|
      invariant forall j :: 0 <= j < i ==> Older(k, ks[j])
    {
      i := i + 1;
    }
    r := ks[..i] + [k] + ks[i..];
    assert k !in Elements(ks);
    InsertKeepsDescending(ks, i, k);
  }

  lemma InsertKeepsDescending(ks: seq<Cursor>, i: nat, k: Cursor)
    requires Descending(ks) && i <= |ks| && k !in Elements(ks)
    requires forall j :: 0 <= j < i ==> Older(k, ks[j])
    requires i < |ks| ==> !Older(k, ks[i])
    ensures Descending(ks[..i] + [k] + ks[i..])
    ensures Elements(ks[..i] + [k] + ks[i..]) == Elements(ks) + {k}
  {
    if i < |ks| {
      assert ks[i] in Elements(ks);
      OlderTotal(k, ks[i]);
    }
    forall j | i <= j < |ks| ensures Older(ks[j], k) {
      if j > i { OlderTransitive(ks[j], ks[i], k); }
    }
    assert ks == ks[..i] + ks[i..];
  }

  lemma PrefixOfAll(stored: set<Cursor>, after: Option<Cursor>, ks: seq<Cursor>, n: nat)
    requires Descending(ks) && n < |ks|
    requires Elements(ks) == set k | k in stored && Below(k, after)
    ensures Newest(stored, after, n, ks[..n])
  {
    forall k | k in ks[..n] ensures k in stored && Below(k, after) { assert k in Elements(ks); }
    forall k | k in stored && Below(k, after) && k !in ks[..n]
      ensures forall i :: 0 <= i < n ==> Older(k, ks[i])
    {
      assert k in Elements(ks);
      var j :| 0 <= j < |ks| && ks[j] == k;
    }
  }

  // ---- following a cursor from page to page ----

  /** One request of a walk: the keys stored when it was served, and its answer. */
  datatype Fetch = Fetch(stored: set<Cursor>, keys: seq<Cursor>, hasMore: bool, next: Option<Cursor>)

  /** The cursor sent with request i: none at first, then the previous answer's. */
  function After(fs: seq<Fetch>, i: nat): Option<Cursor>
    requires i <= |fs|
  {
    if i == 0 then None else fs[i - 1].next
  }

  /** The client asks again only while the last answer said there was more. The stored keys may
      be anything from one request to the next. */
  ghost predicate IsWalk(fs: seq<Fetch>, limit: nat) {
    && limit >= 1
    && (forall i :: 0 <= i < |fs| ==> IsAnswered(fs, i, limit))
    && (forall i :: 0 <= i < |fs| - 1 ==> fs[i].hasMore)
  }

  /** Request i got the page below its cursor. */
  ghost predicate IsAnswered(fs: seq<Fetch>, i: nat, limit: nat)
    requires i < |fs|
  {
    IsPage(fs[i].stored, After(fs, i), limit, fs[i].keys, fs[i].hasMore, fs[i].next)
  }

  ghost predicate IsComplete(fs: seq<Fetch>, limit: nat) {
    IsWalk(fs, limit) && fs != [] && !fs[|fs| - 1].hasMore
  }

  function Returned(fs: seq<Fetch>): seq<Cursor> {
    if fs == [] then [] else Returned(fs[..|fs| - 1]) + fs[|fs| - 1].keys
  }

  lemma WalkPrefix(fs: seq<Fetch>, limit: nat, n: nat)
    requires IsWalk(fs, limit) && n <= |fs|
    ensures IsWalk(fs[..n], limit)
    ensures forall i :: 0 <= i <= n ==> After(fs[..n], i) == After(fs, i)
  {
    forall i | 0 <= i < n ensures IsAnswered(fs[..n], i, limit) {
      assert IsAnswered(fs, i, limit);
    }
  }

  lemma FullPage(stored: set<Cursor>, after: Option<Cursor>, limit: nat,
                 ks: seq<Cursor>, hasMore: bool, next: Option<Cursor>)
    requires IsPage(stored, after, limit, ks, hasMore, next) && hasMore && limit >= 1
    ensures |ks| == limit && next == Some(ks[limit - 1])
  {
    var k :| k in stored && Below(k, after) && k !in ks;
  }

  lemma ConcatDescends(p: seq<Cursor>, q: seq<Cursor>)
    requires Descending(p) && Descending(q)
    requires p != [] ==> forall j :: 0 <= j < |q| ==> Older(q[j], p[|p| - 1])
    ensures Descending(p + q)
  {
    forall i, j | 0 <= i < |p| && 0 <= j < |q| ensures Older(q[j], p[i]) {
      var m := |p| - 1;
      if i < m { OlderTransitive(q[j], p[m], p[i]); }
    }
  }

  lemma BelowTheLast(f: Fetch, after: Option<Cursor>, limit: nat, last: Cursor)
    requires IsPage(f.stored, after, limit, f.keys, f.hasMore, f.next) && after == Some(last)
    ensures forall j :: 0 <= j < |f.keys| ==> Older(f.keys[j], last)
  {
    forall j | 0 <= j < |f.keys| ensures Older(f.keys[j], last) { assert f.keys[j] in f.keys; }
  }

  lemma OnePageMore(before: seq<Cursor>, f: Fetch, after: Option<Cursor>, limit: nat)
    requires IsPage(f.stored, after, limit, f.keys, f.hasMore, f.next) && limit >= 1
    requires Descending(before) && (before != [] ==> after == Some(before[|before| - 1]))
    ensures Descending(before + f.keys)
    ensures f.hasMore ==> f.keys != [] && f.next == Some((before + f.keys)[|before + f.keys| - 1])
  {
    if before != [] { BelowTheLast(f, after, limit, before[|before| - 1]); }
    ConcatDescends(before, f.keys);
    if f.hasMore { FullPage(f.stored, after, limit, f.keys, f.hasMore, f.next); }
  }

  /** The keys returned so far end where the next request will begin. */
  ghost predicate EndsAt(returned: seq<Cursor>, next: Option<Cursor>) {
    returned != [] && next == Some(returned[|returned| - 1])
  }

  lemma {:induction false} ReturnedDescends(fs: seq<Fetch>, limit: nat)
    requires IsWalk(fs, limit)
    ensures Descending(Returned(fs))
    ensures fs != [] && fs[|fs| - 1].hasMore ==> EndsAt(Returned(fs), After(fs, |fs|))
    decreases |fs|
  {
    if fs == [] {
    } else {
      var n := |fs| - 1;
      WalkPrefix(fs, limit, n);
      ReturnedDescends(fs[..n], limit);
      assert n > 0 ==> EndsAt(Returned(fs[..n]), After(fs, n));
      LastFetchDescends(fs, limit);
    }
  }

  lemma LastFetchDescends(fs: seq<Fetch>, limit: nat)
    requires IsWalk(fs, limit) && fs != []
    requires var n := |fs| - 1;
      Descending(Returned(fs[..n])) && (n > 0 ==> EndsAt(Returned(fs[..n]), After(fs, n)))
    ensures Descending(Returned(fs))
    ensures fs[|fs| - 1].hasMore ==> EndsAt(Returned(fs), After(fs, |fs|))
  {
    var n := |fs| - 1;
    assert IsAnswered(fs, n, limit);
    OnePageMore(Returned(fs[..n]), fs[n], After(fs, n), limit);
  }

  /** Whatever is written between requests, the walk goes strictly down: no key comes twice. */
  lemma WalkDescends(fs: seq<Fetch>, limit: nat)
    requires IsWalk(fs, limit)
    ensures Descending(Returned(fs)) && Distinct(Returned(fs))
  {
    ReturnedDescends(fs, limit);
    DescendingIsDistinct(Returned(fs));
  }

  lemma {:induction false} WalkReturnsOrLeavesBelow(fs: seq<Fetch>, limit: nat, k: Cursor)
    requires IsWalk(fs, limit)
    requires forall i :: 0 <= i < |fs| ==> k in fs[i].stored
    ensures k in Returned(fs) || (Below(k, After(fs, |fs|)) && (fs != [] ==> fs[|fs| - 1].hasMore))
    decreases |fs|
  {
    if fs == [] {
    } else {
      var n := |fs| - 1;
      WalkPrefix(fs, limit, n);
      WalkReturnsOrLeavesBelow(fs[..n], limit, k);
      var last := fs[n];
      assert IsAnswered(fs, n, limit);
      assert Returned(fs) == Returned(fs[..n]) + last.keys;
      if k !in Returned(fs) {
        assert k !in Returned(fs[..n]) && k !in last.keys && k in last.stored;
        assert Below(k, After(fs, n));
        assert MoreBelow(last.stored, After(fs, n), last.keys);
        FullPage(last.stored, After(fs, n), limit, last.keys, last.hasMore, last.next);
      }
    }
  }

  /** A key that is there at every request of a completed walk is returned, exactly once. */
  lemma WalkReturnsEveryStableKey(fs: seq<Fetch>, limit: nat, k: Cursor)
    requires IsComplete(fs, limit)
    requires forall i :: 0 <= i < |fs| ==> k in fs[i].stored
    ensures k in Returned(fs)
    ensures Distinct(Returned(fs))
  {
    WalkReturnsOrLeavesBelow(fs, limit, k);
    WalkDescends(fs, limit);
  }

  lemma {:induction false} ReturnedWasStored(fs: seq<Fetch>, limit: nat, k: Cursor)
    requires IsWalk(fs, limit) && k in Returned(fs)
    ensures exists i :: 0 <= i < |fs| && k in fs[i].keys && k in fs[i].stored
    decreases |fs|
  {
    var n := |fs| - 1;
    assert IsAnswered(fs, n, limit);
    if k !in fs[n].keys {
      WalkPrefix(fs, limit, n);
      ReturnedWasStored(fs[..n], limit, k);
      var i :| 0 <= i < n && k in fs[..n][i].keys && k in fs[..n][i].stored;
      assert k in fs[i].keys;
    }
  }

  // ---- how long a walk can be ----

  ghost function Remaining(fs: seq<Fetch>, i: nat): set<Cursor>
    requires i < |fs|
  {
    set k | k in fs[i].stored && Below(k, After(fs, i))
  }

  /** Nothing is written below the cursor of the walk: what request i+1 finds there, request i
      already had. */
  ghost predicate NothingAddedBelow(fs: seq<Fetch>) {
    forall i, j, k :: 0 <= i && j == i + 1 < |fs| && k in fs[j].stored && Below(k, fs[i].next) ==> k in fs[i].stored
  }

  lemma MulStep(i: nat, limit: nat)
    ensures (i + 1) * limit == i * limit + limit
  { }

  lemma NotBelowOwnPage(ks: seq<Cursor>, k: Cursor)
    requires Descending(ks) && ks != [] && Older(k, ks[|ks| - 1])
    ensures k !in ks
  {
    var last := ks[|ks| - 1];
    forall i | 0 <= i < |ks| ensures ks[i] != k {
      OlderIrreflexive(k);
      if i < |ks| - 1 && ks[i] == k { OlderTransitive(k, last, k); }
    }
  }

  /** Each page takes limit keys off what is left below the cursor. */
  lemma RemainingShrinks(fs: seq<Fetch>, limit: nat, i: nat)
    requires IsWalk(fs, limit) && NothingAddedBelow(fs) && i + 1 < |fs|
    ensures |Remaining(fs, i + 1)| + limit <= |Remaining(fs, i)|
    ensures |Remaining(fs, i)| > limit
  {
    var f := fs[i];
    assert IsAnswered(fs, i, limit);
    FullPage(f.stored, After(fs, i), limit, f.keys, f.hasMore, f.next);
    DescendingIsDistinct(f.keys);
    DistinctSize(f.keys);
    var page, later, last := Elements(f.keys), Remaining(fs, i + 1), f.keys[limit - 1];
    assert last in f.keys;
    forall k | k in later ensures k in Remaining(fs, i) && k !in page {
      assert Below(k, f.next) && k in f.stored;
      if After(fs, i).Some? { OlderTransitive(k, last, After(fs, i).value); }
      NotBelowOwnPage(f.keys, k);
    }
    forall k | k in page ensures k in Remaining(fs, i) { }
    assert page !! later;
    SubsetSize(page + later, Remaining(fs, i));
    assert |page + later| == |page| + |later|;
    var extra :| extra in f.stored && Below(extra, After(fs, i)) && extra !in f.keys;
    SubsetSize(page + {extra}, Remaining(fs, i));
  }

  lemma {:induction false} RemainingBound(fs: seq<Fetch>, limit: nat, i: nat)
    requires IsWalk(fs, limit) && NothingAddedBelow(fs) && i < |fs|
    ensures |Remaining(fs, i)| + i * limit <= |fs[0].stored|
    decreases i
  {
    if i == 0 {
      SubsetSize(Remaining(fs, 0), fs[0].stored);
    } else {
      RemainingBound(fs, limit, i - 1);
      RemainingShrinks(fs, limit, i - 1);
      MulStep(i - 1, limit);
    }
  }

  /** A walk whose writes all land above its cursor ends: n requests need more than
      (n - 1) * limit keys to have been stored at the start. */
  lemma WalkTerminates(fs: seq<Fetch>, limit: nat)
    requires IsWalk(fs, limit) && NothingAddedBelow(fs) && |fs| >= 2
    ensures (|fs| - 1) * limit < |fs[0].stored|
  {
    var i := |fs| - 2;
    RemainingBound(fs, limit, i);
    RemainingShrinks(fs, limit, i);
    MulStep(i, limit);
  }

  // ---- messages: between requests rows are only added ----

  ghost predicate OnlyInserts(fs: seq<Fetch>) {
    forall i, j :: 0 <= i <= j < |fs| ==> fs[i].stored <= fs[j].stored
  }

  /** The message walk: strictly descending, nothing twice, every message stored at the start
      returned, and nothing returned that was never stored. */
  lemma MessageWalk(fs: seq<Fetch>, limit: nat)
    requires IsComplete(fs, limit) && OnlyInserts(fs)
    ensures Descending(Returned(fs)) && Distinct(Returned(fs))
    ensures fs[0].stored <= Elements(Returned(fs)) <= fs[|fs| - 1].stored
  {
    WalkDescends(fs, limit);
    forall k | k in fs[0].stored ensures k in Returned(fs) {
      WalkReturnsEveryStableKey(fs, limit, k);
    }
    forall k | k in Returned(fs) ensures k in fs[|fs| - 1].stored {
      ReturnedWasStored(fs, limit, k);
    }
  }

  /** On data that does not change, the pages concatenate to the sorted list ... */
  lemma StableWalk(fs: seq<Fetch>, limit: nat, stored: set<Cursor>)
    requires IsComplete(fs, limit)
    requires forall i :: 0 <= i < |fs| ==> fs[i].stored == stored
    ensures Descending(Returned(fs)) && Elements(Returned(fs)) == stored
  {
    assert fs[0].stored == stored && fs[|fs| - 1].stored == stored;
    assert OnlyInserts(fs) by {
      forall i, j | 0 <= i <= j < |fs| ensures fs[i].stored <= fs[j].stored { assert fs[j].stored == stored; }
    }
    MessageWalk(fs, limit);
  }

  /** ... and there are exactly ceil(n / limit) of them, but at least one. */
  lemma StableWalkLength(fs: seq<Fetch>, limit: nat, stored: set<Cursor>)
    requires IsComplete(fs, limit)
    requires forall i :: 0 <= i < |fs| ==> fs[i].stored == stored
    ensures |stored| <= |fs| * limit
    ensures |fs| >= 2 ==> (|fs| - 1) * limit < |stored|
  {
    StableWalk(fs, limit, stored);
    WalkDescends(fs, limit);
    StableWalkSize(fs, limit, stored);
    if |fs| >= 2 { WalkTerminates(fs, limit); }
  }

  lemma StableWalkSize(fs: seq<Fetch>, limit: nat, stored: set<Cursor>)
    requires IsWalk(fs, limit)
    requires Distinct(Returned(fs)) && Elements(Returned(fs)) == stored
    ensures |stored| <= |fs| * limit
  {
    DistinctSize(Returned(fs));
    ReturnedLength(fs, limit);
  }

  lemma {:induction false} ReturnedLength(fs: seq<Fetch>, limit: nat)
    requires IsWalk(fs, limit)
    ensures |Returned(fs)| <= |fs| * limit
    decreases |fs|
  {
    if fs == [] {
    } else {
      var n := |fs| - 1;
      assert IsAnswered(fs, n, limit);
      WalkPrefix(fs, limit, n);
      ReturnedLength(fs[..n], limit);
      MulStep(n, limit);
    }
  }
}
