/** Vocabulary shared by every component: optional values, the error results of the
    Go code, the fate of one remote statement, and the byte order on identifiers. */
module Basics {

  datatype Option<+T> = None | Some(value: T)

  /** The sentinel errors of the domain package, the validation error, and the wrapped
      failure of a store or cache call. */
  datatype Error =
    | NotFound | NotChatMember | AlreadyMember | GroupFull | DuplicateMessage
    | DuplicateConversation | ReactionLimitReached | RateLimited | Forbidden
    | MessageDeleted | InvalidInput | StoreFailure

  datatype Result<+T> = Ok(value: T) | Err(error: Error)

  /** What became of one statement sent to the store: it took effect and said so, it did not
      take effect and the caller saw an error, or it took effect and the caller saw an error.
      A request that stops between two statements looks, to the store, like Refused. */
  datatype Fate = Done | Refused | TimedOut

  /** Of count statements sent one after another, the first with fate number first, how many took
      effect: the call stops at the first that did not report success. */
  function TookEffect(fate: nat -> Fate, first: nat, count: nat): (n: nat)
    ensures n <= count
    decreases count
  {
    if count == 0 then 0
    else match fate(first)
      case Refused => 0
      case TimedOut => 1
      case Done => 1 + TookEffect(fate, first + 1, count - 1)
  }

  /** All of count statements from number first on reported success. */
  predicate AllDone(fate: nat -> Fate, first: nat, count: nat)
    decreases count
  {
    count == 0 || (fate(first) == Done && AllDone(fate, first + 1, count - 1))
  }

  lemma {:induction false} AllDoneMeans(fate: nat -> Fate, first: nat, count: nat)
    ensures AllDone(fate, first, count) <==> forall n: nat :: first <= n < first + count ==> fate(n) == Done
    decreases count
  {
    if count == 0 {
    } else {
      AllDoneMeans(fate, first + 1, count - 1);
    }
  }

  lemma {:induction false} TookEffectSplit(fate: nat -> Fate, first: nat, a: nat, b: nat)
    ensures TookEffect(fate, first, a + b) ==
      if AllDone(fate, first, a) then a + TookEffect(fate, first + a, b) else TookEffect(fate, first, a)
    ensures AllDone(fate, first, a + b) <==> AllDone(fate, first, a) && AllDone(fate, first + a, b)
    decreases a
  {
    if a == 0 {
    } else {
      TookEffectSplit(fate, first + 1, a - 1, b);
    }
  }

  lemma {:induction false} AllTookEffect(fate: nat -> Fate, first: nat, count: nat)
    ensures AllDone(fate, first, count) ==> TookEffect(fate, first, count) == count
    decreases count
  {
    if count == 0 {
    } else {
      AllTookEffect(fate, first + 1, count - 1);
    }
  }

  lemma OneMoreDone(fate: nat -> Fate, first: nat, i: nat, count: nat)
    requires i < count && AllDone(fate, first, i)
    ensures AllDone(fate, first, i + 1) <==> fate(first + i) == Done
    ensures fate(first + i) != Done ==> !AllDone(fate, first, count)
  {
    TookEffectSplit(fate, first, i, 1);
    TookEffectSplit(fate, first, i, count - i);
  }

  type Id = string

  /** Byte order on identifiers, the order of Go's `<` on strings and of the store's text type. */
  predicate Less(a: string, b: string) {
    LessFrom(a, b, 0)
  }

  /** The order decided from position i on. */
  predicate LessFrom(a: string, b: string, i: nat)
    requires i <= |a| && i <= |b|
    decreases |a| - i
  {
    i < |b| && (i == |a| || a[i] < b[i] || (a[i] == b[i] && LessFrom(a, b, i + 1)))
  }

  /** It is the order of dictionaries on bytes. */
  lemma LessIff(a: string, b: string)
    ensures Less(a, b) <==> a < b || exists i :: 0 <= i < |a| && i < |b| && a[..i] == b[..i] && a[i] < b[i]
  {
    LessFromIff(a, b, 0);
  }

  lemma {:induction false} LessFromIff(a: string, b: string, i: nat)
    requires i <= |a| && i <= |b| && a[..i] == b[..i]
    ensures LessFrom(a, b, i) <==>
              a < b || exists k :: 0 <= k < |a| && k < |b| && a[..k] == b[..k] && a[k] < b[k]
    decreases |a| - i
  {
    if i == |a| || i == |b| {
      AgreeUpTo(a, b, i);
    } else if a[i] == b[i] {
      assert a[..i + 1] == a[..i] + [a[i]] && b[..i + 1] == b[..i] + [b[i]];
      LessFromIff(a, b, i + 1);
    } else {
      AgreeUpTo(a, b, i);
    }
  }

  /** Two texts that agree up to i, where one of them ends or they differ, are compared there. */
  lemma AgreeUpTo(a: string, b: string, i: nat)
    requires i <= |a| && i <= |b| && a[..i] == b[..i]
    requires i < |a| && i < |b| ==> a[i] != b[i]
    ensures a < b <==> i == |a| && i < |b|
    ensures forall k :: 0 <= k < |a| && k < |b| && a[..k] == b[..k] && a[k] < b[k] ==> k == i
  {
    forall k | 0 <= k < |a| && k < |b| && a[..k] == b[..k] && a[k] < b[k] ensures k == i {
      SameUpTo(a, b, i, k);
      SameUpTo(a, b, k, i);
    }
  }

  lemma SameUpTo(a: string, b: string, n: nat, k: nat)
    requires n <= |a| && n <= |b|
    ensures a[..n] == b[..n] && k < n ==> a[k] == b[k]
  {
    if k < n { assert a[..n][k] == a[k] && b[..n][k] == b[k]; }
  }

  lemma LessTotal(a: string, b: string)
    ensures Less(a, b) || Less(b, a) || a == b
  {
    TotalFrom(a, b, 0);
  }

  lemma {:induction false} TotalFrom(a: string, b: string, i: nat)
    requires i <= |a| && i <= |b| && a[..i] == b[..i]
    ensures LessFrom(a, b, i) || LessFrom(b, a, i) || a == b
    decreases |a| - i
  {
    if i < |a| && i < |b| && a[i] == b[i] {
      assert a[..i + 1] == a[..i] + [a[i]] && b[..i + 1] == b[..i] + [b[i]];
      TotalFrom(a, b, i + 1);
    } else if i == |a| && i == |b| {
      assert a == a[..i] && b == b[..i];
    }
  }

  lemma LessIrreflexive(a: string)
    ensures !Less(a, a)
  {
    IrreflexiveFrom(a, 0);
  }

  lemma {:induction false} IrreflexiveFrom(a: string, i: nat)
    requires i <= |a|
    ensures !LessFrom(a, a, i)
    decreases |a| - i
  {
    if i == |a| {
    } else {
      IrreflexiveFrom(a, i + 1);
    }
  }

  lemma LessTransitive(a: string, b: string, c: string)
    requires Less(a, b) && Less(b, c)
    ensures Less(a, c)
  {
    TransitiveFrom(a, b, c, 0);
  }

  lemma {:induction false} TransitiveFrom(a: string, b: string, c: string, i: nat)
    requires i <= |a| && i <= |b| && i <= |c|
    requires LessFrom(a, b, i) && LessFrom(b, c, i)
    ensures LessFrom(a, c, i)
    decreases |a| - i
  {
    if i < |a| && a[i] == b[i] && b[i] == c[i] { TransitiveFrom(a, b, c, i + 1); }
  }

  ghost predicate Distinct<T>(s: seq<T>) {
    forall i, j :: 0 <= i < j < |s| ==> s[i] != s[j]
  }

  ghost function Elements<T>(s: seq<T>): (e: set<T>) {
    set x | x in s
  }

  lemma ElementsAppend<T>(s: seq<T>, x: T)
    ensures Elements(s + [x]) == Elements(s) + {x}
  { }

  lemma {:induction false} DistinctSize<T>(s: seq<T>)
    requires Distinct(s)
    ensures |Elements(s)| == |s|
  {
    if s == [] {
      assert Elements(s) == {};
    } else {
      var last := |s| - 1;
      DistinctSize(s[..last]);
      assert s == s[..last] + [s[last]];
      assert Elements(s) == Elements(s[..last]) + {s[last]};
    }
  }

  lemma SubsetSize<T>(a: set<T>, b: set<T>)
    requires a <= b
    ensures |a| <= |b|
  {
    assert a + (b - a) == b;
  }
}
