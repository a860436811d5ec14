/** The reaction list of a message (internal/domain/message.go): groups of users per emoji, edited in
    place, refining a set of (emoji, user) pairs with two limits. */
module Reactions {
  import opened Basics

  datatype Reaction = Reaction(emoji: string, users: seq<Id>)

  const MAX_REACTIONS_PER_MESSAGE := 20
  const MAX_USERS_PER_REACTION := 50

  /** The (bool, error) result of AddReaction. */
  datatype Added = Added | AlreadyThere | LimitReached

  /** The first group for an emoji, or the end of the list. */
  function GroupOf(rs: seq<Reaction>, emoji: string): (i: nat)
    ensures i <= |rs|
    ensures i < |rs| ==> rs[i].emoji == emoji
    ensures forall j :: 0 <= j < i ==> rs[j].emoji != emoji
  {
    if rs == [] then 0 else if rs[0].emoji == emoji then 0 else 1 + GroupOf(rs[1..], emoji)
  }

  function AddTo(rs: seq<Reaction>, emoji: string, user: Id): (Added, seq<Reaction>) {
    var i := GroupOf(rs, emoji);
    if i < |rs| then
      if user in rs[i].users then (AlreadyThere, rs)
      else if |rs[i].users| >= MAX_USERS_PER_REACTION then (LimitReached, rs)
      else (Added.Added, rs[i := rs[i].(users := rs[i].users + [user])])
    else if |rs| >= MAX_REACTIONS_PER_MESSAGE then (LimitReached, rs)
    else (Added.Added, rs + [Reaction(emoji, [user])])
  }

  function IndexOf(users: seq<Id>, user: Id): (j: nat)
    requires user in users
    ensures j < |users| && users[j] == user && user !in users[..j]
  {
    if users[0] == user then 0
    else
      assert users == [users[0]] + users[1..];
      var k := IndexOf(users[1..], user);
      assert users[..k + 1] == [users[0]] + users[1..][..k];
      k + 1
  }

  /** The first group for the emoji that has the user, or the end of the list. */
  function GroupWith(rs: seq<Reaction>, emoji: string, user: Id): (i: nat)
    ensures i <= |rs|
    ensures i < |rs| ==> rs[i].emoji == emoji && user in rs[i].users
    ensures forall j :: 0 <= j < i ==> rs[j].emoji != emoji || user !in rs[j].users
  {
    if rs == [] then 0
    else if rs[0].emoji == emoji && user in rs[0].users then 0
    else 1 + GroupWith(rs[1..], emoji, user)
  }

  /** The list after taking one user out of group i, dropping the group if that empties it. */
  function TakeOut(rs: seq<Reaction>, i: nat, j: nat): seq<Reaction>
    requires i < |rs| && j < |rs[i].users|
  {
    var users := rs[i].users[..j] + rs[i].users[j + 1..];
    if users == [] then rs[..i] + rs[i + 1..] else rs[i := rs[i].(users := users)]
  }

  function RemoveFrom(rs: seq<Reaction>, emoji: string, user: Id): (bool, seq<Reaction>) {
    var i := GroupWith(rs, emoji, user);
    if i == |rs| then (false, rs) else (true, TakeOut(rs, i, IndexOf(rs[i].users, user)))
  }

  // ---- the set the list stands for ----

  ghost function Pairs(rs: seq<Reaction>): set<(string, Id)> {
    set g, u | g in rs && u in g.users :: (g.emoji, u)
  }

  ghost function EmojisOf(pairs: set<(string, Id)>): set<string> { set p | p in pairs :: p.0 }

  ghost function UsersOf(pairs: set<(string, Id)>, emoji: string): set<Id> { set p | p in pairs && p.0 == emoji :: p.1 }

  /** No emoji twice, no empty group, no user twice in a group, both limits kept. */
  ghost predicate Shape(rs: seq<Reaction>) {
    && |rs| <= MAX_REACTIONS_PER_MESSAGE
    && (forall i, j :: 0 <= i < j < |rs| ==> rs[i].emoji != rs[j].emoji)
    && (forall i :: 0 <= i < |rs| ==> GroupShape(rs[i]))
  }

  ghost predicate GroupShape(g: Reaction) {
    1 <= |g.users| <= MAX_USERS_PER_REACTION && Distinct(g.users)
  }

  lemma PairIn(rs: seq<Reaction>, emoji: string, user: Id)
    ensures (emoji, user) in Pairs(rs) <==> GroupWith(rs, emoji, user) < |rs|
  {
    var i := GroupWith(rs, emoji, user);
    if i < |rs| { assert rs[i] in rs; }
    if (emoji, user) in Pairs(rs) {
      var g :| g in rs && g.emoji == emoji && user in g.users;
      var k :| 0 <= k < |rs| && rs[k] == g;
    }
  }

  lemma GroupIsUnique(rs: seq<Reaction>, i: nat, emoji: string)
    requires Shape(rs) && i < |rs| && rs[i].emoji == emoji
    ensures GroupOf(rs, emoji) == i
    ensures UsersOf(Pairs(rs), emoji) == Elements(rs[i].users)
    ensures |UsersOf(Pairs(rs), emoji)| == |rs[i].users|
  {
    var k := GroupOf(rs, emoji);
    assert k < |rs| && rs[k].emoji == rs[i].emoji;
    assert rs[i] in rs;
    forall u | (emoji, u) in Pairs(rs) ensures u in rs[i].users {
      var g :| g in rs && g.emoji == emoji && u in g.users;
      var m :| 0 <= m < |rs| && rs[m] == g;
      assert m == i;
    }
    forall u | u in rs[i].users
      ensures (emoji, u).0 == emoji && (emoji, u) in Pairs(rs) && u in UsersOf(Pairs(rs), emoji)
    { }
    assert UsersOf(Pairs(rs), emoji) == Elements(rs[i].users);
    assert GroupShape(rs[i]);
    DistinctSize(rs[i].users);
  }

  lemma {:induction false} EmojiCount(rs: seq<Reaction>)
    requires Shape(rs)
    ensures |EmojisOf(Pairs(rs))| == |rs|
    ensures forall e :: e in EmojisOf(Pairs(rs)) <==> GroupOf(rs, e) < |rs|
  {
    var emojis := seq(|rs|, i requires 0 <= i < |rs| => rs[i].emoji);
    forall i | 0 <= i < |rs| ensures rs[i].emoji in EmojisOf(Pairs(rs)) {
      assert GroupShape(rs[i]) && rs[i] in rs && rs[i].users[0] in rs[i].users;
      assert (rs[i].emoji, rs[i].users[0]) in Pairs(rs);
    }
    forall e | e in EmojisOf(Pairs(rs)) ensures e in emojis {
      var p :| p in Pairs(rs) && p.0 == e;
      var g :| g in rs && g.emoji == e && p.1 in g.users;
      var m :| 0 <= m < |rs| && rs[m] == g;
      assert emojis[m] == e;
    }
    assert Elements(emojis) == EmojisOf(Pairs(rs)) by {
      forall e | e in emojis ensures e in EmojisOf(Pairs(rs)) {
        var m :| 0 <= m < |emojis| && emojis[m] == e;
      }
    }
    DistinctSize(emojis);
    forall e ensures e in EmojisOf(Pairs(rs)) <==> GroupOf(rs, e) < |rs| {
      if e in EmojisOf(Pairs(rs)) {
        var m :| 0 <= m < |emojis| && emojis[m] == e;
        assert rs[m].emoji == e;
      }
    }
  }

  /** Whether a pair can still be added, told from the set alone. */
  ghost predicate Room(pairs: set<(string, Id)>, emoji: string) {
    if emoji in EmojisOf(pairs) then |UsersOf(pairs, emoji)| < MAX_USERS_PER_REACTION
    else |EmojisOf(pairs)| < MAX_REACTIONS_PER_MESSAGE
  }

  lemma RoomIff(rs: seq<Reaction>, emoji: string)
    requires Shape(rs)
    ensures var i := GroupOf(rs, emoji);
      Room(Pairs(rs), emoji) <==> (if i < |rs| then |rs[i].users| < MAX_USERS_PER_REACTION
                                   else |rs| < MAX_REACTIONS_PER_MESSAGE)
  {
    EmojiCount(rs);
    if GroupOf(rs, emoji) < |rs| { GroupIsUnique(rs, GroupOf(rs, emoji), emoji); }
  }

  lemma PairsOfUpdate(rs: seq<Reaction>, i: nat, g: Reaction)
    requires Shape(rs) && i < |rs| && g.emoji == rs[i].emoji
    ensures forall e, u :: (e, u) in Pairs(rs[i := g]) <==>
              if e == g.emoji then u in g.users else (e, u) in Pairs(rs)
  {
    var rs' := rs[i := g];
    forall e, u ensures (e, u) in Pairs(rs') <==> if e == g.emoji then u in g.users else (e, u) in Pairs(rs) {
      if (e, u) in Pairs(rs') {
        var h :| h in rs' && h.emoji == e && u in h.users;
        var m :| 0 <= m < |rs'| && rs'[m] == h;
        if m != i { assert rs[m] in rs && rs[m].emoji != rs[i].emoji; }
      }
      if e == g.emoji && u in g.users {
        assert rs'[i] in rs';
      } else if e != g.emoji && (e, u) in Pairs(rs) {
        var h :| h in rs && h.emoji == e && u in h.users;
        var m :| 0 <= m < |rs| && rs[m] == h;
        assert rs'[m] in rs';
      }
    }
  }

  /** AddReaction on the list is insertion into the bounded set: the answer says exactly which of
      the three cases it was, and a refusal changes nothing. */
  lemma AddRefines(rs: seq<Reaction>, emoji: string, user: Id)
    requires Shape(rs)
    ensures var (r, rs') := AddTo(rs, emoji, user);
      && Shape(rs')
      && (r == AlreadyThere <==> (emoji, user) in Pairs(rs))
      && (r == LimitReached <==> (emoji, user) !in Pairs(rs) && !Room(Pairs(rs), emoji))
      && (r == Added.Added ==> Pairs(rs') == Pairs(rs) + {(emoji, user)})
      && (r != Added.Added ==> rs' == rs)
  {
    var i := GroupOf(rs, emoji);
    var (r, rs') := AddTo(rs, emoji, user);
    RoomIff(rs, emoji);
    PairIn(rs, emoji, user);
    if i < |rs| {
      GroupIsUnique(rs, i, emoji);
      assert (emoji, user) in Pairs(rs) <==> user in UsersOf(Pairs(rs), emoji);
      assert GroupShape(rs[i]);
      if r == Added.Added {
        PairsOfUpdate(rs, i, rs'[i]);
        AddedPairs(rs, rs', i, user);
      }
    } else {
      assert GroupWith(rs, emoji, user) == |rs|;
      if r == Added.Added {
        assert forall g :: g in rs' <==> g in rs || g == Reaction(emoji, [user]);
        assert Pairs(rs') == Pairs(rs) + {(emoji, user)};
      }
    }
  }

  lemma AddedPairs(rs: seq<Reaction>, rs': seq<Reaction>, i: nat, user: Id)
    requires Shape(rs) && i < |rs| && user !in rs[i].users && |rs[i].users| < MAX_USERS_PER_REACTION
    requires rs' == rs[i := rs[i].(users := rs[i].users + [user])]
    ensures Shape(rs') && Pairs(rs') == Pairs(rs) + {(rs[i].emoji, user)}
  {
    var emoji := rs[i].emoji;
    PairsOfUpdate(rs, i, rs'[i]);
    GroupIsUnique(rs, i, emoji);
    assert GroupShape(rs[i]);
    assert forall u :: u in rs'[i].users <==> u in rs[i].users || u == user;
    forall e, u ensures (e, u) in Pairs(rs') <==> (e, u) in Pairs(rs) || (e, u) == (emoji, user) {
      assert (emoji, u) in Pairs(rs) <==> u in UsersOf(Pairs(rs), emoji);
    }
  }

  /** RemoveReaction on the list is removal from the set; true exactly when the pair was there. */
  lemma RemoveRefines(rs: seq<Reaction>, emoji: string, user: Id)
    requires Shape(rs)
    ensures var (removed, rs') := RemoveFrom(rs, emoji, user);
      && Shape(rs')
      && (removed <==> (emoji, user) in Pairs(rs))
      && Pairs(rs') == Pairs(rs) - {(emoji, user)}
      && (!removed ==> rs' == rs)
  {
    var i := GroupWith(rs, emoji, user);
    PairIn(rs, emoji, user);
    if i < |rs| {
      var j := IndexOf(rs[i].users, user);
      RemovedPairs(rs, i, j);
      TakeOutShape(rs, i, j);
    }
  }

  lemma RemovedPairs(rs: seq<Reaction>, i: nat, j: nat)
    requires Shape(rs) && i < |rs| && j < |rs[i].users|
    ensures Pairs(TakeOut(rs, i, j)) == Pairs(rs) - {(rs[i].emoji, rs[i].users[j])}
  {
    var emoji, user, users := rs[i].emoji, rs[i].users[j], rs[i].users;
    var rest := users[..j] + users[j + 1..];
    var rs' := rs[i := Reaction(emoji, rest)];
    assert GroupShape(rs[i]);
    WithoutIndex(users, j);
    GroupIsUnique(rs, i, emoji);
    PairsOfUpdate(rs, i, Reaction(emoji, rest));
    forall e, u ensures (e, u) in Pairs(rs') <==> (e, u) in Pairs(rs) && (e, u) != (emoji, user) {
      assert (emoji, u) in Pairs(rs) <==> u in UsersOf(Pairs(rs), emoji);
    }
    assert Pairs(rs') == Pairs(rs) - {(emoji, user)};
    if rest == [] {
      DropEmptyGroup(rs', i);
      assert rs'[..i] + rs'[i + 1..] == rs[..i] + rs[i + 1..];
    }
  }

  lemma TakeOutShape(rs: seq<Reaction>, i: nat, j: nat)
    requires Shape(rs) && i < |rs| && j < |rs[i].users|
    ensures Shape(TakeOut(rs, i, j))
  {
    assert GroupShape(rs[i]);
    WithoutIndex(rs[i].users, j);
    var rs' := TakeOut(rs, i, j);
    if |rs'| == |rs| {
      assert forall k :: 0 <= k < |rs| && k != i ==> rs'[k] == rs[k];
    } else {
      assert forall k :: 0 <= k < |rs'| ==> rs'[k] == if k < i then rs[k] else rs[k + 1];
    }
  }

  lemma WithoutIndex(users: seq<Id>, j: nat)
    requires j < |users| && Distinct(users)
    ensures Distinct(users[..j] + users[j + 1..])
    ensures forall u :: u in users[..j] + users[j + 1..] <==> u in users && u != users[j]
  {
    assert users == users[..j] + [users[j]] + users[j + 1..];
  }

  lemma DropEmptyGroup(rs: seq<Reaction>, i: nat)
    requires i < |rs| && rs[i].users == []
    ensures Pairs(rs[..i] + rs[i + 1..]) == Pairs(rs)
  {
    assert rs == rs[..i] + [rs[i]] + rs[i + 1..];
    var rs' := rs[..i] + rs[i + 1..];
    assert forall g :: g in rs' ==> g in rs;
    assert forall g :: g in rs && g != rs[i] ==> g in rs';
  }

  lemma AppendedIsLast(rs: seq<Reaction>, emoji: string, user: Id)
    requires AddTo(rs, emoji, user).0 == Added.Added
    ensures var i, rs' := GroupOf(rs, emoji), AddTo(rs, emoji, user).1;
      && i < |rs'| && GroupWith(rs', emoji, user) == i
      && rs'[i].users == (if i < |rs| then rs[i].users else []) + [user]
      && user in rs'[i].users && IndexOf(rs'[i].users, user) == |rs'[i].users| - 1
  {
    var i, rs' := GroupOf(rs, emoji), AddTo(rs, emoji, user).1;
    var users := rs'[i].users;
    assert users[|users| - 1] == user;
    assert GroupWith(rs', emoji, user) == i;
    assert users[..|users| - 1] == if i < |rs| then rs[i].users else [];
    forall k | 0 <= k < |users| - 1 ensures users[k] != user { assert users[..|users| - 1][k] == users[k]; }
  }

  lemma UndoTakesOut(rs: seq<Reaction>, emoji: string, user: Id)
    requires AddTo(rs, emoji, user).0 == Added.Added
    ensures var i, rs' := GroupOf(rs, emoji), AddTo(rs, emoji, user).1;
      && i < |rs'| && rs'[i].users != []
      && RemoveFrom(rs', emoji, user) == (true, TakeOut(rs', i, |rs'[i].users| - 1))
  {
    AppendedIsLast(rs, emoji, user);
  }

  /** Taking the user out of the group it was just added to. */
  lemma TakeOutUndoesAdd(rs: seq<Reaction>, i: nat, rs': seq<Reaction>, user: Id)
    requires i < |rs| && rs' == rs[i := rs[i].(users := rs[i].users + [user])]
    ensures TakeOut(rs', i, |rs[i].users|) == rs <==> rs[i].users != []
  {
    var users, n := rs[i].users, |rs[i].users|;
    assert (users + [user])[..n] + (users + [user])[n + 1..] == users;
    if users != [] {
      assert rs'[i := rs'[i].(users := users)] == rs;
    } else {
      assert |rs'[..i] + rs'[i + 1..]| == |rs| - 1;
    }
  }

  lemma TakeOutUndoesNewGroup(rs: seq<Reaction>, g: Reaction)
    requires |g.users| == 1
    ensures TakeOut(rs + [g], |rs|, 0) == rs
  {
    assert (rs + [g])[|rs|].users[..0] + (rs + [g])[|rs|].users[1..] == [];
    assert (rs + [g])[..|rs|] + (rs + [g])[|rs| + 1..] == rs;
  }

  /** Removing what was just added gives the exact list back, unless the addition went into an
      empty group, which no list of this shape has. */
  lemma RemoveUndoesAdd(rs: seq<Reaction>, emoji: string, user: Id)
    requires AddTo(rs, emoji, user).0 == Added.Added
    ensures var i := GroupOf(rs, emoji);
      RemoveFrom(AddTo(rs, emoji, user).1, emoji, user) == (true, rs) <==> !(i < |rs| && rs[i].users == [])
    ensures Shape(rs) ==> RemoveFrom(AddTo(rs, emoji, user).1, emoji, user) == (true, rs)
  {
    var i, rs' := GroupOf(rs, emoji), AddTo(rs, emoji, user).1;
    UndoTakesOut(rs, emoji, user);
    if i < |rs| {
      TakeOutUndoesAdd(rs, i, rs', user);
      assert Shape(rs) ==> GroupShape(rs[i]);
    } else {
      TakeOutUndoesNewGroup(rs, Reaction(emoji, [user]));
    }
  }
}
