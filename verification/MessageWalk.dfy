/** Paging through a conversation while it is being written to: the requests of a walk
    (internal/adapter/repository/message_repo.go) are served at points of a run of MessageRuns. */
module MessageWalks {
  import opened Basics
  import opened Paging
  import MessageRepository
  import MessageRuns
  import MessageStore
  import Messages

  /** What the messages of conversation c are after the first n steps of a run. */
  ghost function KeysAt(run: seq<MessageRuns.Step>, n: nat, c: Id): set<Cursor>
    requires n <= |run| && MessageRuns.IsRun(run[..n], MessageRuns.INITIAL)
  {
    MessageRepository.PartitionKeys(MessageRuns.After(run[..n], MessageRuns.INITIAL).t, c)
  }

  lemma {:induction false} PrefixIsRun(run: seq<MessageRuns.Step>, n: nat)
    requires MessageRuns.IsRun(run, MessageRuns.INITIAL) && n <= |run|
    ensures MessageRuns.IsRun(run[..n], MessageRuns.INITIAL)
    decreases |run|
  {
    if n == |run| {
      assert run[..n] == run;
    } else {
      PrefixIsRun(run[..|run| - 1], n);
      assert run[..|run| - 1][..n] == run[..n];
    }
  }

  /** No edit, deletion, reaction or crash takes a message out of its conversation. */
  lemma {:induction false} KeysOnlyGrow(run: seq<MessageRuns.Step>, m: nat, n: nat, c: Id)
    requires m <= n <= |run|
    requires MessageRuns.IsRun(run[..m], MessageRuns.INITIAL) && MessageRuns.IsRun(run[..n], MessageRuns.INITIAL)
    ensures KeysAt(run, m, c) <= KeysAt(run, n, c)
    decreases n
  {
    if m == n {
    } else {
      var front := run[..n - 1];
      assert run[..n][..n - 1] == front && run[..n][n - 1] == run[n - 1];
      KeysOnlyGrow(run, m, n - 1, c);
      MessageRuns.OnlySendingAddsRows(front, run[n - 1]);
    }
  }

  /** The requests of a walk through conversation c, each answered by FindByConversation after some
      number of steps of the run. */
  ghost predicate IsMessageWalk(run: seq<MessageRuns.Step>, at: seq<nat>, fs: seq<Fetch>, c: Id, limit: nat) {
    && MessageRuns.IsRun(run, MessageRuns.INITIAL) && limit >= 1
    && |at| == |fs| && (forall i :: 0 <= i < |at| ==> at[i] <= |run|)
    && (forall i, j :: 0 <= i <= j < |at| ==> at[i] <= at[j])
    && (forall i :: 0 <= i < |fs| ==> ServedAt(run, at[i], fs[i], MessageRepository.Stored(After(fs, i)), c, limit))
    && (forall i :: 0 <= i < |fs| - 1 ==> fs[i].hasMore)
  }

  ghost predicate ServedAt(run: seq<MessageRuns.Step>, n: nat, f: Fetch, after: Option<Cursor>, c: Id, limit: nat)
    requires MessageRuns.IsRun(run, MessageRuns.INITIAL) && n <= |run|
  {
    PrefixIsRun(run, n);
    && f.stored == KeysAt(run, n, c)
    && IsPage(f.stored, after, limit, f.keys, f.hasMore, f.next)
  }

  /** A cursor handed out is the key of a message, so the store does not round it. */
  lemma NextSurvives(run: seq<MessageRuns.Step>, n: nat, f: Fetch, after: Option<Cursor>, c: Id, limit: nat)
    requires MessageRuns.IsRun(run, MessageRuns.INITIAL) && n <= |run| && ServedAt(run, n, f, after, c, limit)
    ensures MessageRepository.Stored(f.next) == f.next
  {
    PrefixIsRun(run, n);
    if f.next.Some? {
      assert f.keys[|f.keys| - 1] in f.keys;
      var t := MessageRuns.After(run[..n], MessageRuns.INITIAL).t;
      var k :| k in t.messages && k.conversationId == c
               && f.next.value == Cursor(k.createdAt * Messages.NANOS_PER_MILLI, k.id);
      Messages.MillisOfMultiple(k.createdAt);
    }
  }

  lemma MessageWalkIsWalk(run: seq<MessageRuns.Step>, at: seq<nat>, fs: seq<Fetch>, c: Id, limit: nat)
    requires IsMessageWalk(run, at, fs, c, limit)
    ensures IsWalk(fs, limit) && OnlyInserts(fs)
  {
    forall i | 0 <= i < |fs|
      ensures IsAnswered(fs, i, limit)
    {
      if i > 0 {
        NextSurvives(run, at[i - 1], fs[i - 1], MessageRepository.Stored(After(fs, i - 1)), c, limit);
      }
      assert ServedAt(run, at[i], fs[i], MessageRepository.Stored(After(fs, i)), c, limit);
    }
    forall i, j | 0 <= i <= j < |fs| ensures fs[i].stored <= fs[j].stored {
      assert ServedAt(run, at[i], fs[i], MessageRepository.Stored(After(fs, i)), c, limit);
      assert ServedAt(run, at[j], fs[j], MessageRepository.Stored(After(fs, j)), c, limit);
      PrefixIsRun(run, at[i]);
      PrefixIsRun(run, at[j]);
      KeysOnlyGrow(run, at[i], at[j], c);
    }
  }

  /** While any number of sends, edits, deletions and reactions interleave with the walk and any of
      them fails, following the cursor to the end returns every message stored when it began, none
      twice, strictly newest first, and nothing that was not stored; and when new messages are newer
      than the cursor, it ends after a number of requests fixed by what was stored at the start. */
  lemma WalkDuringRun(run: seq<MessageRuns.Step>, at: seq<nat>, fs: seq<Fetch>, c: Id, limit: nat)
    requires IsMessageWalk(run, at, fs, c, limit) && fs != [] && !fs[|fs| - 1].hasMore
    ensures at[0] <= at[|fs| - 1] <= |run|
    ensures MessageRuns.IsRun(run[..at[0]], MessageRuns.INITIAL)
    ensures MessageRuns.IsRun(run[..at[|fs| - 1]], MessageRuns.INITIAL)
    ensures Descending(Returned(fs)) && Distinct(Returned(fs))
    ensures KeysAt(run, at[0], c) <= Elements(Returned(fs)) <= KeysAt(run, at[|fs| - 1], c)
    ensures forall k :: k in MessageRuns.After(run[..at[0]], MessageRuns.INITIAL).t.messages && k.conversationId == c
              ==> Cursor(k.createdAt * 1_000_000, k.id) in Returned(fs)
    ensures forall x :: x in Returned(fs) ==>
              IsRowOf(MessageRuns.After(run[..at[|fs| - 1]], MessageRuns.INITIAL).t, c, x)
    ensures NothingAddedBelow(fs) && |fs| >= 2 ==> (|fs| - 1) * limit < |KeysAt(run, at[0], c)|
  {
    PrefixIsRun(run, at[0]);
    PrefixIsRun(run, at[|fs| - 1]);
    MessageWalkIsWalk(run, at, fs, c, limit);
    MessageWalk(fs, limit);
    if NothingAddedBelow(fs) && |fs| >= 2 { WalkTerminates(fs, limit); }
    assert ServedAt(run, at[0], fs[0], MessageRepository.Stored(After(fs, 0)), c, limit);
    assert ServedAt(run, at[|fs| - 1], fs[|fs| - 1], MessageRepository.Stored(After(fs, |fs| - 1)), c, limit);
    ReturnedAreRows(run, at[0], at[|fs| - 1], c, Returned(fs));
  }

  /** Some row of the conversation has this key. */
  ghost predicate IsRowOf(t: MessageStore.Tables, c: Id, x: Cursor) {
    exists k :: k in t.messages && k.conversationId == c && k.createdAt * 1_000_000 == x.createdAt && k.id == x.id
  }

  /** Said of rows: every row there at the start, and only rows there at the end. */
  lemma ReturnedAreRows(run: seq<MessageRuns.Step>, m: nat, n: nat, c: Id, returned: seq<Cursor>)
    requires m <= |run| && n <= |run|
    requires MessageRuns.IsRun(run[..m], MessageRuns.INITIAL) && MessageRuns.IsRun(run[..n], MessageRuns.INITIAL)
    requires KeysAt(run, m, c) <= Elements(returned) <= KeysAt(run, n, c)
    ensures forall k :: k in MessageRuns.After(run[..m], MessageRuns.INITIAL).t.messages && k.conversationId == c
              ==> Cursor(k.createdAt * 1_000_000, k.id) in returned
    ensures forall x :: x in returned ==> IsRowOf(MessageRuns.After(run[..n], MessageRuns.INITIAL).t, c, x)
  {
    forall k | k in MessageRuns.After(run[..m], MessageRuns.INITIAL).t.messages && k.conversationId == c
      ensures Cursor(k.createdAt * 1_000_000, k.id) in returned
    {
      assert Cursor(k.createdAt * Messages.NANOS_PER_MILLI, k.id) in KeysAt(run, m, c);
    }
    forall x | x in returned ensures IsRowOf(MessageRuns.After(run[..n], MessageRuns.INITIAL).t, c, x) {
      assert x in Elements(returned);
    }
  }
}
