/** The two places where identifiers are glued into text: page cursors
    (internal/adapter/handler/chat_handler.go) and the lookup key of a direct chat
    (internal/adapter/repository/conversation_repo.go, internal/domain/conversation.go). */
module TextKeys {
  import opened Basics
  import opened Paging

  /** The timestamp codec of the standard library, given by its two functions. */
  ghost predicate GoodClock(format: int -> string, parse: string -> Option<int>) {
    && (forall t :: parse(format(t)) == Some(t))
    && (forall t :: '|' !in format(t))
  }

  function EncodeCursor(c: Cursor, format: int -> string): string {
    format(c.createdAt) + "|" + c.id
  }

  /** What a piece of cursor text denotes: nothing without a bar, else the parts around the
      last bar. */
  function DecodeCursor(s: string, parse: string -> Option<int>): Option<Cursor> {
    CursorAt(s, |s|, parse)
  }

  function CursorAt(s: string, n: nat, parse: string -> Option<int>): Option<Cursor>
    requires n <= |s|
    decreases n
  {
    if n == 0 then None
    else if s[n - 1] == '|' then
      var t := parse(s[..n - 1]);
      if t.None? then None else Some(Cursor(t.value, s[n..]))
    else CursorAt(s, n - 1, parse)
  }

  method DecodeCursorLoop(s: string, parse: string -> Option<int>) returns (c: Option<Cursor>)
    ensures c == DecodeCursor(s, parse)
    ensures '|' !in s ==> c == None
    ensures c.Some? ==> '|' !in c.value.id && |c.value.id| < |s| && s[|s| - |c.value.id|..] == c.value.id
  {
    var i := |s|;
    while i > 0
      invariant 0 <= i <= |s|
      invariant '|' !in s[i..]
      invariant DecodeCursor(s, parse) == CursorAt(s, i, parse)
    {
      i := i - 1;
      if s[i] == '|' {
        var t := parse(s[..i]);
        if t == None { return None; }
        return Some(Cursor(t.value, s[i + 1..]));
      }
      assert s[i..] == [s[i]] + s[i + 1..];
    }
    c := None;
  }

  lemma {:induction false} LastBar(s: string, n: nat, bar: nat, parse: string -> Option<int>)
    requires bar < n <= |s| && s[bar] == '|'
    requires forall j :: bar < j < n ==> s[j] != '|'
    ensures CursorAt(s, n, parse) == CursorAt(s, bar + 1, parse)
    decreases n
  {
    if bar + 1 == n {
    } else {
      LastBar(s, n - 1, bar, parse);
    }
  }

  lemma {:induction false} DecodedIdHasNoBar(s: string, n: nat, parse: string -> Option<int>)
    requires n <= |s| && '|' !in s[n..]
    ensures CursorAt(s, n, parse).Some? ==> '|' !in CursorAt(s, n, parse).value.id
    decreases n
  {
    if n > 0 && s[n - 1] != '|' {
      assert s[n - 1..] == [s[n - 1]] + s[n..];
      DecodedIdHasNoBar(s, n - 1, parse);
    }
  }

  /** A cursor survives the trip through the client exactly when its id has no bar. */
  lemma CursorRoundTrip(c: Cursor, format: int -> string, parse: string -> Option<int>)
    requires GoodClock(format, parse)
    ensures DecodeCursor(EncodeCursor(c, format), parse) == Some(c) <==> '|' !in c.id
  {
    var f := format(c.createdAt);
    var s := EncodeCursor(c, format);
    if '|' !in c.id {
      forall j | |f| < j < |s| ensures s[j] != '|' {
        assert s[j] == c.id[j - |f| - 1];
      }
      assert s[|f|] == '|';
      LastBar(s, |s|, |f|, parse);
      assert s[..|f|] == f && s[|f| + 1..] == c.id;
    } else {
      DecodedIdHasNoBar(s, |s|, parse);
    }
  }

  function DirectChatKey(userId1: Id, userId2: Id): (Id, Id) {
    if Less(userId1, userId2) then (userId1, userId2) else (userId2, userId1)
  }

  function DirectKey(userId1: Id, userId2: Id): string {
    var (u1, u2) := DirectChatKey(userId1, userId2);
    u1 + ":" + u2
  }

  lemma DirectKeySymmetric(a: Id, b: Id)
    ensures DirectKey(a, b) == DirectKey(b, a)
  {
    LessTotal(a, b);
    if Less(a, b) && Less(b, a) {
      LessTransitive(a, b, a);
      LessIrreflexive(a);
    }
  }

  lemma SplitAtColon(a: Id, b: Id, c: Id, d: Id)
    requires ':' !in a && ':' !in c
    requires a + ":" + b == c + ":" + d
    ensures a == c && b == d
  {
    var s, t := a + ":" + b, c + ":" + d;
    assert s[|a|] == ':' && t[|c|] == ':';
    assert |a| == |c|;
    assert a == s[..|a|] && c == t[..|c|];
    assert b == s[|a| + 1..] && d == t[|c| + 1..];
  }

  /** Without colons, equal lookup keys mean the same two users. */
  lemma DirectKeyInjective(a: Id, b: Id, c: Id, d: Id)
    requires ':' !in a && ':' !in b && ':' !in c && ':' !in d
    ensures DirectKey(a, b) == DirectKey(c, d) <==> {a, b} == {c, d}
  {
    if DirectKey(a, b) == DirectKey(c, d) {
      var (p, q) := DirectChatKey(a, b);
      var (r, s) := DirectChatKey(c, d);
      SplitAtColon(p, q, r, s);
      assert {a, b} == {p, q} && {c, d} == {r, s};
    }
    if {a, b} == {c, d} {
      assert a in {c, d} && b in {c, d} && c in {a, b} && d in {a, b};
      DirectKeySymmetric(a, b);
    }
  }

  /** The text around position p of a key is a pair in the order the key is built in. */
  predicate SplitsAt(key: string, p: nat) {
    p < |key| && key[p] == ':' && !Less(key[p + 1..], key[..p])
  }

  lemma SplitHasKey(key: string, p: nat)
    requires SplitsAt(key, p)
    ensures DirectKey(key[..p], key[p + 1..]) == key
  {
    LessTotal(key[..p], key[p + 1..]);
    assert key == key[..p] + ":" + key[p + 1..];
  }

  lemma KeySplits(c: Id, d: Id) returns (p: nat)
    ensures SplitsAt(DirectKey(c, d), p)
    ensures {DirectKey(c, d)[..p], DirectKey(c, d)[p + 1..]} == {c, d}
  {
    var (u, v) := DirectChatKey(c, d);
    p := |u|;
    var key := DirectKey(c, d);
    assert key[..p] == u && key[p + 1..] == v;
    if Less(c, d) && Less(d, c) {
      LessTransitive(c, d, c);
      LessIrreflexive(c);
    }
  }

  /** Another pair shares the key exactly when the key has a colon that splits it into two texts in
      byte order other than the two users. */
  lemma CollisionIff(a: Id, b: Id)
    ensures (exists c, d :: DirectKey(c, d) == DirectKey(a, b) && {c, d} != {a, b})
            <==> exists p: nat :: SplitsAt(DirectKey(a, b), p)
                                  && {DirectKey(a, b)[..p], DirectKey(a, b)[p + 1..]} != {a, b}
  {
    var key := DirectKey(a, b);
    if c, d :| DirectKey(c, d) == key && {c, d} != {a, b} {
      var p := KeySplits(c, d);
      assert SplitsAt(key, p) && {key[..p], key[p + 1..]} != {a, b};
    }
    if p: nat :| SplitsAt(key, p) && {key[..p], key[p + 1..]} != {a, b} {
      SplitHasKey(key, p);
      assert DirectKey(key[..p], key[p + 1..]) == key;
    }
  }

  /** With colons two different pairs can share a key. */
  lemma DirectKeyCollision()
    ensures DirectKey("a:b", "c") == DirectKey("a", "b:c")
    ensures {"a:b", "c"} != {"a", "b:c"}
  {
    assert Less("a:b", "c") && Less("a", "b:c");
    assert "a:b" + ":" + "c" == "a" + ":" + "b:c";
    assert |"a:b"| == 3 && |"a"| == 1 && |"b:c"| == 3;
    assert "a:b"[0] != "b:c"[0];
    assert "a:b" !in {"a", "b:c"};
  }
}
