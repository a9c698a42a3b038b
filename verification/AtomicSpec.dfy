/** The five operations of my_atomic.h on one 32-bit cell, each taking effect in a single step.
    This is the specification that the compare-and-swap bodies (AtomicCas.dfy) and the mutex bodies
    (AtomicMutex.dfy) are proved to refine; what holds of its runs therefore holds of theirs. */
module AtomicSpec {

  const WORDS := 0x1_0000_0000

  /** A 32-bit value as its residue: signed and unsigned callers share the cell. */
  type Word = x: int | 0 <= x < WORDS

  datatype Op = Cas(cmp: Word, new_: Word) | Add(v: Word) | Fas(v: Word) | Load | Store(v: Word)

  /** What the caller gets back; `cmp` is what compare-and-swap leaves in its second argument. */
  datatype Ret = Swapped(ok: bool, cmp: Word) | Value(v: Word) | Nothing

  /** 32-bit addition wraps. */
  function Wrap(x: nat): Word {
    x % 0x1_0000_0000
  }

  function NewCell(cell: Word, op: Op): Word {
    match op
    case Cas(cmp, new_) => if cell == cmp then new_ else cell
    case Add(v) => Wrap(cell + v)
    case Fas(v) => v
    case Load => cell
    case Store(v) => v
  }

  function Result(cell: Word, op: Op): Ret {
    match op
    case Cas(cmp, _) => Swapped(cell == cmp, cell)
    case Add(_) => Value(cell)
    case Fas(_) => Value(cell)
    case Load => Value(cell)
    case Store(_) => Nothing
  }

  /** What my_atomic.h documents of an operation: the cell before and after it, and what it returns. */
  predicate Documented(op: Op, before: Word, after: Word, ret: Ret) {
    match op
    case Add(v) => ret == Value(before) && after == (before + v) % WORDS
    case Fas(v) => ret == Value(before) && after == v
    case Cas(cmp, new_) =>
      if before == cmp then ret == Swapped(true, cmp) && after == new_
      else ret == Swapped(false, before) && after == before
    case Load => ret == Value(before) && after == before
    case Store(v) => ret == Nothing && after == v
  }

  datatype Thread = Idle | Called(op: Op) | Finished(op: Op, ret: Ret)
  datatype State = State(cell: Word, threads: seq<Thread>)

  datatype Label = Call(t: nat, op: Op) | Effect(t: nat) | Return(t: nat, ret: Ret)

  ghost predicate Initial(s: State) {
    forall t | 0 <= t < |s.threads| :: s.threads[t] == Idle
  }

  ghost predicate Enabled(s: State, l: Label) {
    && l.t < |s.threads|
    && match l
       case Call(t, _) => s.threads[t].Idle?
       case Effect(t) => s.threads[t].Called?
       case Return(t, ret) => s.threads[t].Finished? && s.threads[t].ret == ret
  }

  ghost function Next(s: State, l: Label): State
    requires Enabled(s, l)
  {
    match l
    case Call(t, op) => s.(threads := s.threads[t := Called(op)])
    case Effect(t) =>
      var op := s.threads[t].op;
      State(NewCell(s.cell, op), s.threads[t := Finished(op, Result(s.cell, op))])
    case Return(t, _) => s.(threads := s.threads[t := Idle])
  }

  /** An interleaving: any enabled step of any thread may come next. */
  datatype Run = Start(init: State) | Then(before: Run, step: Label)

  ghost predicate Legal(r: Run)
    decreases r, 0
  {
    match r
    case Start(s) => Initial(s)
    case Then(b, l) => Legal(b) && Enabled(Last(b), l)
  }

  ghost function Last(r: Run): State
    requires Legal(r)
    decreases r, 1
  {
    match r
    case Start(s) => s
    case Then(b, l) => Next(Last(b), l)
  }

  ghost function Init(r: Run): Word {
    match r
    case Start(s) => s.cell
    case Then(b, _) => Init(b)
  }

  /** What the callers see: calls and returns, in order. */
  datatype Event = Invoked(t: nat, op: Op) | Returned(t: nat, ret: Ret)

  ghost function Visible(r: Run): seq<Event> {
    match r
    case Start(_) => []
    case Then(b, Call(t, op)) => Visible(b) + [Invoked(t, op)]
    case Then(b, Effect(_)) => Visible(b)
    case Then(b, Return(t, ret)) => Visible(b) + [Returned(t, ret)]
  }

  /** A completed operation: who called what, and what it returned. */
  datatype Done = Done(t: nat, op: Op, ret: Ret)

  /** The operations in the order they took effect. */
  ghost function Effects(r: Run): seq<Done>
    requires Legal(r)
  {
    match r
    case Start(_) => []
    case Then(b, Effect(t)) =>
      var s := Last(b);
      Effects(b) + [Done(t, s.threads[t].op, Result(s.cell, s.threads[t].op))]
    case Then(b, _) => Effects(b)
  }

  /** The operations in the order they returned. */
  ghost function Returns(r: Run): seq<Done>
    requires Legal(r)
  {
    match r
    case Start(_) => []
    case Then(b, Return(t, ret)) => Returns(b) + [Done(t, Last(b).threads[t].op, ret)]
    case Then(b, _) => Returns(b)
  }

  ghost function Pending(t: nat, x: Thread): seq<Done> {
    match x
    case Finished(op, ret) => [Done(t, op, ret)]
    case _ => []
  }

  /** Operations that have taken effect but not returned yet. */
  ghost function InFlight(threads: seq<Thread>): seq<Done> {
    if threads == [] then [] else
      var t := |threads| - 1;
      InFlight(threads[..t]) + Pending(t, threads[t])
  }

  /** Every operation that has taken effect: those that returned, then those still to return. */
  ghost function Completed(r: Run): seq<Done>
    requires Legal(r)
  {
    Returns(r) + InFlight(Last(r).threads)
  }

  /** The operations thread `t` called, in order. */
  ghost function Calls(t: nat, r: Run): seq<Op> {
    match r
    case Start(_) => []
    case Then(b, Call(u, op)) => Calls(t, b) + if u == t then [op] else []
    case Then(b, _) => Calls(t, b)
  }

  ghost function Ops(es: seq<Done>): (ops: seq<Op>)
    ensures |ops| == |es|
  {
    if es == [] then [] else Ops(es[..|es| - 1]) + [es[|es| - 1].op]
  }

  /** The cell after one thread does these operations alone. */
  ghost function Replay(from: Word, es: seq<Done>): Word {
    if es == [] then from else NewCell(Replay(from, es[..|es| - 1]), es[|es| - 1].op)
  }

  /** Every operation does what is documented at its place in the history. */
  ghost predicate Sequential(from: Word, es: seq<Done>) {
    es == [] ||
    var k := |es| - 1;
    Sequential(from, es[..k]) && Documented(es[k].op, Replay(from, es[..k]), Replay(from, es), es[k].ret)
  }

  ghost function Of(t: nat, es: seq<Done>): seq<Done> {
    if es == [] then [] else
      var k := |es| - 1;
      Of(t, es[..k]) + if es[k].t == t then [es[k]] else []
  }

  lemma OfSnoc(t: nat, es: seq<Done>, e: Done)
    ensures Of(t, es + [e]) == Of(t, es) + if e.t == t then [e] else []
  {
    assert (es + [e])[..|es|] == es;
  }

  lemma {:induction false} ThreadCount(r: Run)
    requires Legal(r)
    ensures r.Then? ==> |Last(r).threads| == |Last(r.before).threads|
    ensures forall e | e in Effects(r) :: e.t < |Last(r).threads|
  {
    if r.Then? { ThreadCount(r.before); }
  }

  /** One more effect, at the current cell. */
  lemma SequentialSnoc(from: Word, es: seq<Done>, t: nat, op: Op)
    requires Sequential(from, es)
    ensures var cell := Replay(from, es);
            var all := es + [Done(t, op, Result(cell, op))];
            Sequential(from, all) && Replay(from, all) == NewCell(cell, op)
  {
    var all := es + [Done(t, op, Result(Replay(from, es), op))];
    assert all[..|es|] == es;
  }

  /** The effects form a sequential history of the documented operations from the initial value to the
      current one. */
  lemma {:induction false} EffectsAreSequential(r: Run)
    requires Legal(r)
    ensures Sequential(Init(r), Effects(r)) && Replay(Init(r), Effects(r)) == Last(r).cell
  {
    match r
    case Start(_) =>
    case Then(b, l) =>
      EffectsAreSequential(b);
      if l.Effect? { SequentialSnoc(Init(b), Effects(b), l.t, Last(b).threads[l.t].op); }
  }

  /** Every operation takes effect exactly once, before it returns and after it was called: thread by
      thread the effects are the returns, in order, plus the one not returned yet. */
  lemma {:induction false} OneEffectPerCall(r: Run, t: nat)
    requires Legal(r) && t < |Last(r).threads|
    ensures Of(t, Effects(r)) == Of(t, Returns(r)) + Pending(t, Last(r).threads[t])
  {
    match r
    case Start(_) =>
    case Then(b, l) =>
      OneEffectPerCall(b, t);
      if l.t == t { OneEffectStep(b, l); } else { OthersStep(b, l, t); }
  }

  /** A step of thread `l.t` itself. */
  lemma OneEffectStep(b: Run, l: Label)
    requires Legal(b) && Enabled(Last(b), l)
    requires Of(l.t, Effects(b)) == Of(l.t, Returns(b)) + Pending(l.t, Last(b).threads[l.t])
    ensures Of(l.t, Effects(Then(b, l))) ==
            Of(l.t, Returns(Then(b, l))) + Pending(l.t, Last(Then(b, l)).threads[l.t])
  {
    match l
    case Call(_, _) => assert Pending(l.t, Last(b).threads[l.t]) == Pending(l.t, Last(Then(b, l)).threads[l.t]) == [];
    case Effect(t) => TakesEffectStep(b, t);
    case Return(t, ret) => ReturnStep(b, t, ret);
  }

  lemma TakesEffectStep(b: Run, t: nat)
    requires Legal(b) && Enabled(Last(b), Effect(t))
    requires Of(t, Effects(b)) == Of(t, Returns(b)) + Pending(t, Last(b).threads[t])
    ensures Of(t, Effects(Then(b, Effect(t)))) ==
            Of(t, Returns(Then(b, Effect(t)))) + Pending(t, Last(Then(b, Effect(t))).threads[t])
  {
    var s := Last(b);
    OfSnoc(t, Effects(b), Done(t, s.threads[t].op, Result(s.cell, s.threads[t].op)));
    assert Pending(t, s.threads[t]) == [];
  }

  lemma ReturnStep(b: Run, t: nat, ret: Ret)
    requires Legal(b) && Enabled(Last(b), Label.Return(t, ret))
    requires Of(t, Effects(b)) == Of(t, Returns(b)) + Pending(t, Last(b).threads[t])
    ensures Of(t, Effects(Then(b, Label.Return(t, ret)))) ==
            Of(t, Returns(Then(b, Label.Return(t, ret)))) + Pending(t, Last(Then(b, Label.Return(t, ret))).threads[t])
  {
    var s := Last(b);
    OfSnoc(t, Returns(b), Done(t, s.threads[t].op, ret));
    assert Pending(t, Last(Then(b, Label.Return(t, ret))).threads[t]) == [];
  }

  /** A step of another thread. */
  lemma OthersStep(b: Run, l: Label, t: nat)
    requires Legal(b) && Enabled(Last(b), l) && t < |Last(b).threads| && t != l.t
    ensures Of(t, Effects(Then(b, l))) == Of(t, Effects(b))
    ensures Of(t, Returns(Then(b, l))) == Of(t, Returns(b))
    ensures Last(Then(b, l)).threads[t] == Last(b).threads[t]
  {
    var s := Last(b);
    match l
    case Call(_, _) =>
    case Effect(u) => OfSnoc(t, Effects(b), Done(u, s.threads[u].op, Result(s.cell, s.threads[u].op)));
    case Return(u, ret) => OfSnoc(t, Returns(b), Done(u, s.threads[u].op, ret));
  }

  lemma OpsSnoc(es: seq<Done>, e: Done)
    ensures Ops(es + [e]) == Ops(es) + [e.op]
  {
    assert (es + [e])[..|es|] == es;
  }

  /** A thread's completed operations are the ones it called, in call order. */
  lemma {:induction false} CallsAreAnswered(r: Run, t: nat)
    requires Legal(r) && t < |Last(r).threads|
    ensures Calls(t, r) == Ops(Of(t, Returns(r))) + InProgress(Last(r).threads[t])
  {
    if r.Then? {
      CallsAreAnswered(r.before, t);
      if r.step.t == t { CallStep(r.before, r.step); } else { OthersStep(r.before, r.step, t); }
    }
  }

  lemma CallStep(b: Run, l: Label)
    requires Legal(b) && Enabled(Last(b), l)
    requires Calls(l.t, b) == Ops(Of(l.t, Returns(b))) + InProgress(Last(b).threads[l.t])
    ensures Calls(l.t, Then(b, l)) ==
            Ops(Of(l.t, Returns(Then(b, l)))) + InProgress(Next(Last(b), l).threads[l.t])
  {
    match l
    case Call(_, _) =>
    case Effect(_) =>
    case Return(t, ret) => AnsweredStep(b, t, ret);
  }

  lemma AnsweredStep(b: Run, t: nat, ret: Ret)
    requires Legal(b) && Enabled(Last(b), Label.Return(t, ret))
    ensures Ops(Of(t, Returns(Then(b, Label.Return(t, ret))))) == Ops(Of(t, Returns(b))) + [Last(b).threads[t].op]
  {
    var d := Done(t, Last(b).threads[t].op, ret);
    OfSnoc(t, Returns(b), d);
    OpsSnoc(Of(t, Returns(b)), d);
  }

  /** The operation that thread `t` has called and that has not returned, if any. */
  ghost function Ongoing(t: nat, es: seq<Event>): seq<Op> {
    if es == [] then [] else
      var k := |es| - 1;
      match es[k]
      case Invoked(u, op) => if u == t then [op] else Ongoing(t, es[..k])
      case Returned(u, _) => if u == t then [] else Ongoing(t, es[..k])
  }

  /** The operations that have returned, as callers can tell from the calls and returns. */
  ghost function Answered(es: seq<Event>): seq<Done> {
    if es == [] then [] else
      var k := |es| - 1;
      match es[k]
      case Invoked(_, _) => Answered(es[..k])
      case Returned(t, ret) =>
        var ops := Ongoing(t, es[..k]);
        Answered(es[..k]) + if ops == [] then [] else [Done(t, ops[0], ret)]
  }

  lemma OngoingSnoc(t: nat, es: seq<Event>, e: Event)
    ensures Ongoing(t, es + [e]) == match e
                                    case Invoked(u, op) => if u == t then [op] else Ongoing(t, es)
                                    case Returned(u, _) => if u == t then [] else Ongoing(t, es)
  {
    assert (es + [e])[..|es|] == es;
  }

  /** Of a thread, its operation in progress. */
  ghost function InProgress(x: Thread): seq<Op> {
    if x.Idle? then [] else [x.op]
  }

  lemma OngoingStep(b: Run, l: Label, t: nat)
    requires Legal(b) && Enabled(Last(b), l) && t < |Last(b).threads|
    requires Ongoing(t, Visible(b)) == InProgress(Last(b).threads[t])
    ensures Ongoing(t, Visible(Then(b, l))) == InProgress(Next(Last(b), l).threads[t])
  {
    match l
    case Call(u, op) => OngoingSnoc(t, Visible(b), Invoked(u, op));
    case Return(u, ret) => OngoingSnoc(t, Visible(b), Returned(u, ret));
    case Effect(_) =>
  }

  lemma {:induction false} OngoingIsThread(r: Run, t: nat)
    requires Legal(r) && t < |Last(r).threads|
    ensures Ongoing(t, Visible(r)) == InProgress(Last(r).threads[t])
  {
    if r.Then? {
      OngoingIsThread(r.before, t);
      OngoingStep(r.before, r.step, t);
    }
  }

  lemma {:induction false} ReturnsAreAnswered(r: Run)
    requires Legal(r)
    ensures Returns(r) == Answered(Visible(r))
  {
    match r
    case Start(_) =>
    case Then(b, l) =>
      ReturnsAreAnswered(b);
      if !l.Effect? { assert Visible(r)[..|Visible(b)|] == Visible(b); }
      if l.Return? { OngoingIsThread(b, l.t); }
  }

  ghost function Count<T>(es: seq<T>, d: T): nat {
    if es == [] then 0 else Count(es[..|es| - 1], d) + if es[|es| - 1] == d then 1 else 0
  }

  lemma {:induction false} CountConcat<T>(a: seq<T>, b: seq<T>, d: T)
    ensures Count(a + b, d) == Count(a, d) + Count(b, d)
  {
    if b == [] {
      assert a + b == a;
    } else {
      assert (a + b)[..|a + b| - 1] == a + b[..|b| - 1];
      CountConcat(a, b[..|b| - 1], d);
    }
  }

  lemma {:induction false} CountIsMultiplicity<T>(es: seq<T>, d: T)
    ensures Count(es, d) == multiset(es)[d]
  {
    if es != [] {
      var k := |es| - 1;
      assert es == es[..k] + [es[k]];
      CountIsMultiplicity(es[..k], d);
    }
  }

  /** Multiplicities after one thread changes. */
  /** How often `d` is in flight among the first `n` threads. */
  ghost function CountInFlight(threads: seq<Thread>, n: nat, d: Done): nat
    requires n <= |threads|
  {
    if n == 0 then 0 else CountInFlight(threads, n - 1, d) + Count(Pending(n - 1, threads[n - 1]), d)
  }

  lemma {:induction false} InFlightIsCounted(threads: seq<Thread>, n: nat, d: Done)
    requires n <= |threads|
    ensures Count(InFlight(threads[..n]), d) == CountInFlight(threads, n, d)
    decreases n
  {
    if n > 0 {
      InFlightIsCounted(threads, n - 1, d);
      assert threads[..n][..n - 1] == threads[..n - 1];
      CountConcat(InFlight(threads[..n - 1]), Pending(n - 1, threads[n - 1]), d);
    }
  }

  lemma {:induction false} CountUpdate(threads: seq<Thread>, n: nat, t: nat, x: Thread, d: Done)
    requires t < |threads| && n <= |threads|
    ensures CountInFlight(threads[t := x], n, d) + (if t < n then Count(Pending(t, threads[t]), d) else 0) ==
            CountInFlight(threads, n, d) + (if t < n then Count(Pending(t, x), d) else 0)
    decreases n
  {
    if n > 0 { CountUpdate(threads, n - 1, t, x, d); }
  }

  lemma InFlightUpdate(threads: seq<Thread>, t: nat, x: Thread, d: Done)
    requires t < |threads|
    ensures Count(InFlight(threads[t := x]), d) + Count(Pending(t, threads[t]), d) ==
            Count(InFlight(threads), d) + Count(Pending(t, x), d)
  {
    var n := |threads|;
    CountUpdate(threads, n, t, x, d);
    InFlightIsCounted(threads, n, d);
    InFlightIsCounted(threads[t := x], n, d);
    assert threads[..n] == threads && threads[t := x][..n] == threads[t := x];
  }

  lemma {:induction false} NothingInFlight(threads: seq<Thread>)
    requires forall t | 0 <= t < |threads| :: !threads[t].Finished?
    ensures InFlight(threads) == []
  {
    if threads != [] { NothingInFlight(threads[..|threads| - 1]); }
  }

  lemma {:induction false} EffectsAreCounted(r: Run, d: Done)
    requires Legal(r)
    ensures Count(Effects(r), d) == Count(Returns(r), d) + Count(InFlight(Last(r).threads), d)
  {
    match r
    case Start(s) => NothingInFlight(s.threads);
    case Then(b, l) =>
      EffectsAreCounted(b, d);
      var ts, ts' := Last(b).threads, Last(r).threads;
      var was, now := Pending(l.t, ts[l.t]), Pending(l.t, ts'[l.t]);
      InFlightUpdate(ts, l.t, ts'[l.t], d);
      if l.Return? {
        assert now == [] && Returns(r) == Returns(b) + was && Effects(r) == Effects(b);
        CountConcat(Returns(b), was, d);
      } else {
        assert was == [] && Effects(r) == Effects(b) + now && Returns(r) == Returns(b);
        CountConcat(Effects(b), now, d);
      }
  }

  /** Nothing is lost and nothing happens twice: what took effect is what completed. */
  lemma EffectsAreCompleted(r: Run)
    requires Legal(r)
    ensures multiset(Effects(r)) == multiset(Completed(r))
  {
    forall d ensures multiset(Effects(r))[d] == multiset(Completed(r))[d] {
      EffectsAreCounted(r, d);
      CountConcat(Returns(r), InFlight(Last(r).threads), d);
      CountIsMultiplicity(Effects(r), d);
      CountIsMultiplicity(Completed(r), d);
    }
  }

  lemma RemoveAt<T>(b: seq<T>, i: nat)
    requires i < |b|
    ensures multiset(b) == multiset(b[..i] + b[i + 1..]) + multiset{b[i]}
  {
    assert b == b[..i] + [b[i]] + b[i + 1..];
  }

  /** Where the last element of `a` stands in a permutation of `a`. */
  lemma FindLast<T>(a: seq<T>, b: seq<T>) returns (i: nat)
    requires a != [] && multiset(a) == multiset(b)
    ensures i < |b| && b[i] == a[|a| - 1]
    ensures multiset(b[..i] + b[i + 1..]) == multiset(a[..|a| - 1])
  {
    var k := |a| - 1;
    assert a == a[..k] + [a[k]];
    assert multiset(a) == multiset(a[..k]) + multiset{a[k]};
    assert a[k] in multiset(b);
    i :| 0 <= i < |b| && b[i] == a[k];
    RemoveAt(b, i);
    var rest := b[..i] + b[i + 1..];
    forall x ensures multiset(rest)[x] == multiset(a[..k])[x] {
      assert multiset(b)[x] == multiset(rest)[x] + multiset{b[i]}[x];
      assert multiset(a)[x] == multiset(a[..k])[x] + multiset{a[k]}[x];
    }
  }

  ghost function Project<T>(f: Done -> T, es: seq<Done>): (p: seq<T>)
    ensures |p| == |es| && forall i | 0 <= i < |es| :: p[i] == f(es[i])
  {
    seq(|es|, i requires 0 <= i < |es| => f(es[i]))
  }

  lemma ProjectSnoc<T>(f: Done -> T, es: seq<Done>)
    requires es != []
    ensures Project(f, es) == Project(f, es[..|es| - 1]) + [f(es[|es| - 1])]
  {
  }

  lemma ProjectAround<T>(f: Done -> T, b: seq<Done>, i: nat)
    requires i < |b|
    ensures multiset(Project(f, b)) == multiset(Project(f, b[..i] + b[i + 1..])) + multiset{f(b[i])}
  {
    ProjectWithout(f, b, i);
    RemoveAt(Project(f, b), i);
  }

  lemma ProjectWithout<T>(f: Done -> T, b: seq<Done>, i: nat)
    requires i < |b|
    ensures Project(f, b[..i] + b[i + 1..]) == Project(f, b)[..i] + Project(f, b)[i + 1..]
  {
  }

  lemma {:induction false} ProjectPermuted<T>(f: Done -> T, a: seq<Done>, b: seq<Done>)
    requires multiset(a) == multiset(b)
    ensures multiset(Project(f, a)) == multiset(Project(f, b))
    decreases |a|
  {
    if a == [] {
      assert |multiset(b)| == 0;
    } else {
      var k := |a| - 1;
      var i := FindLast(a, b);
      ProjectPermuted(f, a[..k], b[..i] + b[i + 1..]);
      ProjectAround(f, b, i);
      ProjectAround(f, a, k);
      assert a[..k] + a[k + 1..] == a[..k];
    }
  }

  /** What holds of every operation that took effect holds of every completed one, and conversely. */
  lemma AllPermuted<T>(p: T -> bool, a: seq<T>, b: seq<T>)
    requires multiset(a) == multiset(b)
    requires forall i | 0 <= i < |a| :: p(a[i])
    ensures |a| == |b| && forall i | 0 <= i < |b| :: p(b[i])
  {
    assert |multiset(a)| == |multiset(b)|;
    forall i | 0 <= i < |b| ensures p(b[i]) {
      assert b[i] in multiset(b);
      assert b[i] in multiset(a);
    }
  }
}
