/** What callers may rely on in every interleaving of the five operations: laws of the runs of
    `AtomicSpec`, stated over the operations completed so far (returned, or done and about to return). */
module AtomicLaws {
  import opened AtomicSpec

  /** Everything added. */
  function Added(es: seq<Done>): nat {
    if es == [] then 0 else
      var d := es[|es| - 1];
      Added(es[..|es| - 1]) + if d.op.Add? then d.op.v else 0
  }

  /** The value an operation handed back. */
  function Fetched(d: Done): Word {
    if d.ret.Value? then d.ret.v else 0
  }

  function Stored(d: Done): Word {
    if d.op.Fas? then d.op.v else 0
  }

  predicate AllAddOrLoad(es: seq<Done>) {
    forall i | 0 <= i < |es| :: AddOrLoad(es[i])
  }

  predicate AllIncrements(es: seq<Done>) {
    forall i | 0 <= i < |es| :: es[i].op == Add(1)
  }

  predicate AllFas(es: seq<Done>) {
    forall i | 0 <= i < |es| :: es[i].op.Fas?
  }

  /** The values handed out are the first value, the next one, and so on. */
  ghost predicate ConsecutiveTickets(first: Word, es: seq<Done>) {
    multiset(Project(Fetched, es)) == multiset(Tickets(first, |es|))
  }

  /** No two operations were handed the same value. */
  predicate DistinctTickets(es: seq<Done>) {
    forall i, j | 0 <= i < j < |es| :: Fetched(es[i]) != Fetched(es[j])
  }

  /** The first value and everything stored are what was handed back and the last value. */
  ghost predicate Conserved(first: Word, es: seq<Done>, last: Word) {
    multiset([first] + Project(Stored, es)) == multiset(Project(Fetched, es) + [last])
  }

  /** The last value is the first one and everything added, mod 2^32. */
  predicate AllCounted(first: Word, es: seq<Done>, last: Word) {
    last == Wrap(first + Added(es))
  }

  predicate AddOrLoad(d: Done) {
    d.op.Add? || d.op.Load?
  }

  /** In a run of additions and loads no addition is lost, whatever the interleaving. */
  lemma AddsAreConserved(r: Run)
    requires Legal(r)
    requires AllAddOrLoad(Completed(r))
    ensures AllCounted(Init(r), Completed(r), Last(r).cell)
  {
    EffectsAreSequential(r);
    EffectsAreCompleted(r);
    AddsInAnyOrder(Init(r), Effects(r), Completed(r), Last(r).cell);
  }

  lemma AddsInAnyOrder(from: Word, es: seq<Done>, cs: seq<Done>, last: Word)
    requires multiset(es) == multiset(cs) && Replay(from, es) == last
    requires AllAddOrLoad(cs)
    ensures AllCounted(from, cs, last)
  {
    AllPermuted(AddOrLoad, cs, es);
    AddsAccumulate(from, es);
    AddedPermuted(es, cs);
  }

  lemma {:induction false} AddsAccumulate(from: Word, es: seq<Done>)
    requires forall i | 0 <= i < |es| :: AddOrLoad(es[i])
    ensures Replay(from, es) == Wrap(from + Added(es))
  {
    if es != [] {
      var k := |es| - 1;
      AddsAccumulate(from, es[..k]);
      WrapTwice(from + Added(es[..k]), if es[k].op.Add? then es[k].op.v else 0);
    }
  }

  lemma {:induction false} AddedConcat(a: seq<Done>, b: seq<Done>)
    ensures Added(a + b) == Added(a) + Added(b)
  {
    if b == [] {
      assert a + b == a;
    } else {
      assert (a + b)[..|a + b| - 1] == a + b[..|b| - 1];
      AddedConcat(a, b[..|b| - 1]);
    }
  }

  lemma {:induction false} AddedPermuted(a: seq<Done>, b: seq<Done>)
    requires multiset(a) == multiset(b)
    ensures Added(a) == Added(b)
    decreases |a|
  {
    if a == [] {
      assert |multiset(b)| == 0;
    } else {
      var k := |a| - 1;
      var i := FindLast(a, b);
      var before, after := b[..i], b[i + 1..];
      AddedPermuted(a[..k], before + after);
      AddedConcat(before, after);
      AddedConcat(before, [b[i]] + after);
      AddedConcat([b[i]], after);
      assert b == before + ([b[i]] + after);
      assert [b[i]][..0] == [];
    }
  }

  lemma WrapTwice(a: nat, b: nat)
    ensures Wrap(Wrap(a) + b) == Wrap(a + b)
  {
  }

  /** The values handed out by `n` increments, in the order they take effect. */
  function Tickets(from: Word, n: nat): (ts: seq<Word>)
    ensures |ts| == n && forall k | 0 <= k < n :: ts[k] == Wrap(from + k)
  {
    seq<Word>(n, k requires 0 <= k => Wrap(from + k))
  }

  lemma {:induction false} IncrementsCount(from: Word, es: seq<Done>)
    requires Sequential(from, es)
    requires forall i | 0 <= i < |es| :: es[i].op == Add(1)
    ensures Replay(from, es) == Wrap(from + |es|)
    ensures Project(Fetched, es) == Tickets(from, |es|)
  {
    if es != [] {
      var k := |es| - 1;
      IncrementsCount(from, es[..k]);
      WrapTwice(from + k, 1);
    }
  }

  lemma {:induction false} DistinctCount<T>(s: seq<T>, x: T)
    requires forall i, j | 0 <= i < j < |s| :: s[i] != s[j]
    ensures Count(s, x) == if x in s then 1 else 0
  {
    if s != [] { DistinctCount(s[..|s| - 1], x); }
  }

  lemma CountTwice<T>(s: seq<T>, i: nat, j: nat)
    requires i < j < |s| && s[i] == s[j]
    ensures Count(s, s[i]) >= 2
  {
    assert s == s[..i] + [s[i]] + s[i + 1..j] + [s[j]] + s[j + 1..];
    CountIsMultiplicity(s, s[i]);
  }

  lemma PermutedDistinct<T>(a: seq<T>, b: seq<T>)
    requires multiset(a) == multiset(b)
    requires forall i, j | 0 <= i < j < |a| :: a[i] != a[j]
    ensures forall i, j | 0 <= i < j < |b| :: b[i] != b[j]
  {
    forall i, j | 0 <= i < j < |b| ensures b[i] != b[j] {
      if b[i] == b[j] {
        CountTwice(b, i, j);
        CountIsMultiplicity(b, b[i]);
        CountIsMultiplicity(a, b[i]);
        DistinctCount(a, b[i]);
      }
    }
  }

  /** Increments hand out consecutive tickets, and up to 2^32 of them never the same one twice. */
  lemma TicketsAreConsecutiveAndDistinct(r: Run)
    requires Legal(r)
    requires AllIncrements(Completed(r))
    ensures ConsecutiveTickets(Init(r), Completed(r))
    ensures |Completed(r)| <= WORDS ==> DistinctTickets(Completed(r))
  {
    EffectsAreSequential(r);
    EffectsAreCompleted(r);
    IncrementsInAnyOrder(Init(r), Effects(r), Completed(r));
  }

  lemma IncrementsInAnyOrder(from: Word, es: seq<Done>, cs: seq<Done>)
    requires multiset(es) == multiset(cs) && Sequential(from, es)
    requires AllIncrements(cs)
    ensures ConsecutiveTickets(from, cs)
    ensures |cs| <= WORDS ==> DistinctTickets(cs)
  {
    AllPermuted((d: Done) => d.op == Add(1), cs, es);
    IncrementsCount(from, es);
    ProjectPermuted(Fetched, es, cs);
    assert |es| == |multiset(es)| == |multiset(cs)| == |cs|;
    if |cs| <= WORDS {
      TicketsAreDistinct(from, |cs|);
      PermutedDistinct(Tickets(from, |cs|), Project(Fetched, cs));
    }
  }

  lemma TicketsAreDistinct(from: Word, n: nat)
    requires n <= WORDS
    ensures forall i, j | 0 <= i < j < n :: Tickets(from, n)[i] != Tickets(from, n)[j]
  {
    forall i, j | 0 <= i < j < n ensures Tickets(from, n)[i] != Tickets(from, n)[j] {
      WrapDiffers(from, i, j);
    }
  }

  lemma WrapDiffers(a: Word, i: nat, j: nat)
    requires i < j < i + WORDS
    ensures Wrap(a + i) != Wrap(a + j)
  {
  }

  /** Fetch-and-store only passes values along: what was in the cell at the start and everything stored
      since is exactly what has been handed back and what is in the cell now. */
  lemma FetchAndStoreConserves(r: Run)
    requires Legal(r)
    requires AllFas(Completed(r))
    ensures Conserved(Init(r), Completed(r), Last(r).cell)
  {
    var es, cs := Effects(r), Completed(r);
    EffectsAreSequential(r);
    EffectsAreCompleted(r);
    ExchangesInAnyOrder(Init(r), es, cs);
  }

  lemma ExchangesInAnyOrder(from: Word, es: seq<Done>, cs: seq<Done>)
    requires multiset(es) == multiset(cs) && Sequential(from, es)
    requires AllFas(cs)
    ensures Conserved(from, cs, Replay(from, es))
  {
    AllPermuted((d: Done) => d.op.Fas?, cs, es);
    ExchangesPass(from, es);
    ProjectPermuted(Fetched, es, cs);
    ProjectPermuted(Stored, es, cs);
    assert multiset([from] + Project(Stored, es)) == multiset(Project(Fetched, es) + [Replay(from, es)]);
  }

  lemma ShiftOne(a: seq<Word>, b: seq<Word>, x: Word, y: Word)
    requires a == b + [x]
    ensures a + [y] == b + [x] + [y]
  {
  }

  lemma {:induction false} ExchangesPass(from: Word, es: seq<Done>)
    requires Sequential(from, es)
    requires forall i | 0 <= i < |es| :: es[i].op.Fas?
    ensures [from] + Project(Stored, es) == Project(Fetched, es) + [Replay(from, es)]
  {
    if es != [] {
      var k := |es| - 1;
      ExchangesPass(from, es[..k]);
      ProjectSnoc(Stored, es);
      ProjectSnoc(Fetched, es);
      ShiftOne([from] + Project(Stored, es[..k]), Project(Fetched, es[..k]), Replay(from, es[..k]), es[k].op.v);
    }
  }

  // ---- Loads and stores

  predicate LoadOrStore(d: Done) {
    d.op.Load? || d.op.Store?
  }

  predicate AllLoadOrStore(es: seq<Done>) {
    forall i | 0 <= i < |es| :: LoadOrStore(es[i])
  }

  predicate StoredIn(es: seq<Done>, v: Word) {
    exists d :: d in es && d.op == Store(v)
  }

  predicate AnyStore(es: seq<Done>) {
    exists d :: d in es && d.op.Store?
  }

  /** Every value loaded is the first one or one stored, and the last value is one stored if any was. */
  predicate LoadsAreOfStores(first: Word, es: seq<Done>, last: Word) {
    && (forall d | d in es && d.op.Load? :: d.ret.Value? && (d.ret.v == first || StoredIn(es, d.ret.v)))
    && (if AnyStore(es) then StoredIn(es, last) else last == first)
  }

  lemma {:induction false} LoadsFollowStores(from: Word, es: seq<Done>)
    requires Sequential(from, es) && AllLoadOrStore(es)
    ensures LoadsAreOfStores(from, es, Replay(from, es))
  {
    if es != [] {
      var k := |es| - 1;
      LoadsFollowStores(from, es[..k]);
      LoadsFollowOne(from, es[..k], es[k], Replay(from, es[..k]), Replay(from, es));
      assert es == es[..k] + [es[k]];
    }
  }

  lemma LoadsFollowOne(from: Word, es: seq<Done>, d: Done, before: Word, after: Word)
    requires LoadsAreOfStores(from, es, before) && LoadOrStore(d) && Documented(d.op, before, after, d.ret)
    ensures LoadsAreOfStores(from, es + [d], after)
  {
    var all := es + [d];
    forall v | StoredIn(es, v) ensures StoredIn(all, v) {
      var e :| e in es && e.op == Store(v);
      assert e in all;
    }
    assert d in all;
    assert AnyStore(all) <==> AnyStore(es) || d.op.Store? by {
      if AnyStore(es) {
        var e :| e in es && e.op.Store?;
        assert e in all;
      }
    }
  }

  lemma LoadsInAnyOrder(from: Word, es: seq<Done>, cs: seq<Done>)
    requires multiset(es) == multiset(cs) && Sequential(from, es) && AllLoadOrStore(cs)
    ensures LoadsAreOfStores(from, cs, Replay(from, es))
  {
    AllPermuted(LoadOrStore, cs, es);
    LoadsFollowStores(from, es);
    SameMembers(es, cs);
  }

  lemma SameMembers<T>(a: seq<T>, b: seq<T>)
    requires multiset(a) == multiset(b)
    ensures forall x :: x in a <==> x in b
  {
    forall x ensures x in a <==> x in b {
      assert x in a <==> x in multiset(a);
      assert x in b <==> x in multiset(b);
    }
  }

  // ---- Compare-and-swap

  predicate TryLock(d: Done) {
    d.op == Cas(0, 1)
  }

  predicate AllTryLock(es: seq<Done>) {
    forall i | 0 <= i < |es| :: TryLock(es[i])
  }

  function Answer(d: Done): Ret {
    d.ret
  }

  /** The answers to `n` attempts at one lock: the first to take effect gets it and the others see it taken. */
  function LockAnswers(n: nat): (rs: seq<Ret>)
    ensures |rs| == n
  {
    if n == 0 then [] else LockAnswers(n - 1) + [if n == 1 then Swapped(true, 0) else Swapped(false, 1)]
  }

  /** Of all attempts to swap 0 for 1, starting from 0, exactly one succeeds. */
  ghost predicate OneWins(first: Word, es: seq<Done>, last: Word) {
    first == 0 ==>
      && multiset(Project(Answer, es)) == multiset(LockAnswers(|es|))
      && last == if es == [] then 0 else 1
  }

  lemma {:induction false} FirstWins(es: seq<Done>)
    requires Sequential(0, es) && AllTryLock(es)
    ensures Project(Answer, es) == LockAnswers(|es|) && Replay(0, es) == if es == [] then 0 else 1
  {
    if es != [] { FirstWins(es[..|es| - 1]); }
  }

  lemma LockInAnyOrder(from: Word, es: seq<Done>, cs: seq<Done>)
    requires multiset(es) == multiset(cs) && Sequential(from, es) && AllTryLock(cs)
    ensures OneWins(from, cs, Replay(from, es))
  {
    AllPermuted(TryLock, cs, es);
    ProjectPermuted(Answer, es, cs);
    assert |es| == |multiset(es)| == |multiset(cs)| == |cs|;
    if from == 0 { FirstWins(es); }
  }

  /** A compare-and-swap says it succeeded exactly when the value it hands back is the one expected. */
  predicate TellsTruth(d: Done) {
    d.op.Cas? ==> d.ret.Swapped? && (d.ret.ok <==> d.ret.cmp == d.op.cmp)
  }

  predicate AllTellTruth(es: seq<Done>) {
    forall i | 0 <= i < |es| :: TellsTruth(es[i])
  }

  lemma {:induction false} TruthIsTold(from: Word, es: seq<Done>)
    requires Sequential(from, es)
    ensures AllTellTruth(es)
  {
    if es != [] { TruthIsTold(from, es[..|es| - 1]); }
  }

  lemma OtherLaws(r: Run)
    requires Legal(r)
    ensures var first, cs, last := Init(r), Completed(r), Last(r).cell;
            && (AllLoadOrStore(cs) ==> LoadsAreOfStores(first, cs, last))
            && (AllTryLock(cs) ==> OneWins(first, cs, last))
            && AllTellTruth(cs)
  {
    EffectsAreSequential(r);
    EffectsAreCompleted(r);
    if AllLoadOrStore(Completed(r)) { LoadsInAnyOrder(Init(r), Effects(r), Completed(r)); }
    if AllTryLock(Completed(r)) { LockInAnyOrder(Init(r), Effects(r), Completed(r)); }
    TruthIsTold(Init(r), Effects(r));
    AllPermuted(TellsTruth, Effects(r), Completed(r));
  }

  /** What callers may rely on: of the operations completed, the first value and the last. */
  ghost predicate Lawful(first: Word, cs: seq<Done>, last: Word) {
    && (AllAddOrLoad(cs) ==> AllCounted(first, cs, last))
    && (AllIncrements(cs) ==> ConsecutiveTickets(first, cs))
    && (AllIncrements(cs) && |cs| <= WORDS ==> DistinctTickets(cs))
    && (AllFas(cs) ==> Conserved(first, cs, last))
    && (AllLoadOrStore(cs) ==> LoadsAreOfStores(first, cs, last))
    && (AllTryLock(cs) ==> OneWins(first, cs, last))
    && AllTellTruth(cs)
  }

  lemma AllLaws(r: Run)
    requires Legal(r)
    ensures Lawful(Init(r), Completed(r), Last(r).cell)
  {
    var cs := Completed(r);
    if AllAddOrLoad(cs) { AddsAreConserved(r); }
    if AllIncrements(cs) { TicketsAreConsecutiveAndDistinct(r); }
    if AllFas(cs) { FetchAndStoreConserves(r); }
    OtherLaws(r);
  }
}
