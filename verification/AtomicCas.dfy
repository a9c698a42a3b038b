/** The lock-free bodies: my_atomic.h builds the operations that a platform header leaves out from its
    compare-and-swap. Threads interleave at single accesses to the cell, which is sequentially
    consistent. Every run is a run of `AtomicSpec` to its callers, and retries are bounded. */
module AtomicCas {
  import opened AtomicSpec
  import Spec = AtomicSpec
  import Laws = AtomicLaws

  /** Which header supplied the bodies. `Fallback` supplies compare-and-swap only. */
  datatype Platform = Fallback | Gcc | Msvc

  /** A thread between accesses: `Retrying` holds the expected value `tmp` of the loop. */
  datatype CasThread = Out | Entered(op: Op) | Retrying(op: Op, tmp: Word) | Ended(op: Op, ret: Ret)

  datatype CasState = CasState(cell: Word, threads: seq<CasThread>)

  datatype Label = Call(t: nat, op: Op) | Access(t: nat) | Return(t: nat, ret: Ret)

  /** The platform's primitive: swaps if the cell holds `cmp`, and yields what the cell held. */
  function ValCompareAndSwap(cell: Word, cmp: Word, new_: Word): (r: (Word, Word)) {
    (if cell == cmp then new_ else cell, cell)
  }

  /** The operations that loop on compare-and-swap: the rest have a primitive of their own. */
  predicate Loops(p: Platform, op: Op) {
    match op
    case Add(_) => p == Fallback
    case Fas(_) => true                       // the headers define a swap body, never a fas body
    case Store(_) => p == Fallback || p == Msvc
    case Cas(_, _) => false
    case Load => false
  }

  /** What a loop tries to put in place of `tmp`; a store is a fetch-and-store. */
  function Wanted(op: Op, tmp: Word): Word {
    match op
    case Add(v) => Wrap(tmp + v)
    case Fas(v) => v
    case Store(v) => v
    case Cas(_, new_) => new_
    case Load => tmp
  }

  /** What a loop returns once `tmp` has been replaced. */
  function Given(op: Op, tmp: Word): Ret {
    if op.Store? then Nothing else Value(tmp)
  }

  /** A body that is done after one access: the new cell and the result. */
  function Single(p: Platform, op: Op, cell: Word): (Word, Ret)
    requires !Loops(p, op)
  {
    match op
    case Cas(cmp, new_) =>
      var (cell', sav) := ValCompareAndSwap(cell, cmp, new_);
      var ok := sav == cmp;
      (cell', Swapped(ok, if ok then cmp else sav))
    case Add(v) => (Wrap(cell + v), Value(cell))
    case Store(v) => (v, Nothing)
    case Load =>
      if p == Gcc then (cell, Value(cell))    // fetch-and-or with zero
      else                                    // compare-and-swap zero for zero
        var (cell', sav) := ValCompareAndSwap(cell, 0, 0);
        (cell', Value(sav))
    case Fas(_) => assert false; (cell, Nothing)
  }

  ghost predicate Enabled(s: CasState, l: Label) {
    && l.t < |s.threads|
    && match l
       case Call(t, _) => s.threads[t].Out?
       case Access(t) => s.threads[t].Entered? || s.threads[t].Retrying?
       case Return(t, ret) => s.threads[t].Ended? && s.threads[t].ret == ret
  }

  ghost function Next(p: Platform, s: CasState, l: Label): CasState
    requires Enabled(s, l)
  {
    match l
    case Call(t, op) => s.(threads := s.threads[t := Entered(op)])
    case Return(t, _) => s.(threads := s.threads[t := Out])
    case Access(t) =>
      match s.threads[t]
      case Entered(op) =>
        if Loops(p, op) then
          s.(threads := s.threads[t := Retrying(op, s.cell)])
        else
          var (cell', ret) := Single(p, op, s.cell);
          CasState(cell', s.threads[t := Ended(op, ret)])
      case Retrying(op, tmp) =>
        var (cell', sav) := ValCompareAndSwap(s.cell, tmp, Wanted(op, tmp));
        CasState(cell', s.threads[t := if sav == tmp then Ended(op, Given(op, tmp)) else Retrying(op, sav)])
  }

  datatype Run = Begin(p: Platform, init: CasState) | Step(before: Run, step: Label)

  ghost function On(r: Run): Platform {
    match r
    case Begin(p, _) => p
    case Step(b, _) => On(b)
  }

  ghost predicate Legal(r: Run)
    decreases r, 0
  {
    match r
    case Begin(_, s) => forall t | 0 <= t < |s.threads| :: s.threads[t] == Out
    case Step(b, l) => Legal(b) && Enabled(Last(b), l)
  }

  ghost function Last(r: Run): CasState
    requires Legal(r)
    decreases r, 1
  {
    match r
    case Begin(_, s) => s
    case Step(b, l) => Next(On(b), Last(b), l)
  }

  ghost function Visible(r: Run): seq<Event> {
    match r
    case Begin(_, _) => []
    case Step(b, Call(t, op)) => Visible(b) + [Invoked(t, op)]
    case Step(b, Access(_)) => Visible(b)
    case Step(b, Return(t, ret)) => Visible(b) + [Returned(t, ret)]
  }

  /** Only loops retry. */
  ghost predicate Valid(p: Platform, s: CasState) {
    forall t | 0 <= t < |s.threads| && s.threads[t].Retrying? :: Loops(p, s.threads[t].op)
  }

  lemma {:induction false} RunsAreValid(r: Run)
    requires Legal(r)
    ensures Valid(On(r), Last(r))
  {
    if r.Step? { RunsAreValid(r.before); }
  }

  // ---- Refinement: the access that ends a body is the one step at which it takes effect.

  function AbsThread(x: CasThread): Thread {
    match x
    case Out => Idle
    case Entered(op) => Called(op)
    case Retrying(op, _) => Called(op)
    case Ended(op, ret) => Finished(op, ret)
  }

  ghost function Abs(s: CasState): State {
    State(s.cell, seq(|s.threads|, i requires 0 <= i < |s.threads| => AbsThread(s.threads[i])))
  }

  /** Whether access `t` ends the body it belongs to. */
  ghost predicate TakesEffect(p: Platform, s: CasState, t: nat)
    requires Enabled(s, Access(t))
  {
    match s.threads[t]
    case Entered(op) => !Loops(p, op)
    case Retrying(_, tmp) => s.cell == tmp
    case _ => false
  }

  ghost function AbsRun(r: Run): Spec.Run
    requires Legal(r)
  {
    match r
    case Begin(_, s) => Spec.Start(Abs(s))
    case Step(b, Call(t, op)) => Spec.Then(AbsRun(b), Spec.Call(t, op))
    case Step(b, Return(t, ret)) => Spec.Then(AbsRun(b), Spec.Return(t, ret))
    case Step(b, Access(t)) =>
      if TakesEffect(On(b), Last(b), t) then Spec.Then(AbsRun(b), Effect(t)) else AbsRun(b)
  }

  /** One access either is the whole operation, as the callers see it, or is invisible. */
  lemma AccessRefines(p: Platform, s: CasState, t: nat)
    requires Valid(p, s) && Enabled(s, Access(t))
    ensures if TakesEffect(p, s, t)
            then Spec.Enabled(Abs(s), Effect(t)) && Abs(Next(p, s, Access(t))) == Spec.Next(Abs(s), Effect(t))
            else Abs(Next(p, s, Access(t))) == Abs(s)
  {
    var s' := Next(p, s, Access(t));
    if TakesEffect(p, s, t) {
      assert Abs(s').threads == Spec.Next(Abs(s), Effect(t)).threads;
    } else {
      assert Abs(s').threads == Abs(s).threads;
    }
  }

  /** The access at which a body takes effect does what is documented, to the cell as it is at that moment; a
      load hands back that cell and leaves it alone, and a store leaves its value. Any other access leaves the
      cell alone. */
  lemma EffectIsDocumented(p: Platform, s: CasState, t: nat)
    requires Valid(p, s) && Enabled(s, Access(t))
    ensures var s', op := Next(p, s, Access(t)), s.threads[t].op;
            if TakesEffect(p, s, t) then
              && s'.threads[t].Ended? && s'.threads[t].op == op
              && Documented(op, s.cell, s'.cell, s'.threads[t].ret)
              && (op.Load? ==> s'.threads[t] == Ended(Load, Value(s.cell)) && s'.cell == s.cell)
              && (op.Store? ==> s'.threads[t] == Ended(op, Nothing) && s'.cell == op.v)
            else !s'.threads[t].Ended? && s'.cell == s.cell
  {
  }

  /** Every interleaving of the lock-free bodies is, to the callers, an interleaving of the atomic
      operations: same calls, same returns, same order, same cell. */
  lemma {:induction false} CasRefinesAtomic(r: Run)
    requires Legal(r)
    ensures Spec.Legal(AbsRun(r))
    ensures Spec.Last(AbsRun(r)) == Abs(Last(r))
    ensures Spec.Visible(AbsRun(r)) == Visible(r)
  {
    match r
    case Begin(_, _) =>
    case Step(b, l) =>
      CasRefinesAtomic(b);
      RunsAreValid(b);
      var s := Last(b);
      match l
      case Call(t, op) => assert Abs(Last(r)).threads == Abs(s).threads[t := Called(op)];
      case Return(t, _) => assert Abs(Last(r)).threads == Abs(s).threads[t := Idle];
      case Access(t) => AccessRefines(On(b), s, t);
  }

  /** Operations that are done and about to return. */
  ghost function AboutToReturn(threads: seq<CasThread>): seq<Done> {
    if threads == [] then [] else
      var t := |threads| - 1;
      AboutToReturn(threads[..t]) + match threads[t]
                                    case Ended(op, ret) => [Done(t, op, ret)]
                                    case _ => []
  }

  /** The operations completed: those whose return the callers have seen, then those about to return. */
  ghost function CompletedOps(r: Run): seq<Done>
    requires Legal(r)
  {
    Answered(Visible(r)) + AboutToReturn(Last(r).threads)
  }

  lemma {:induction false} AboutToReturnRefines(cell: Word, threads: seq<CasThread>)
    ensures InFlight(Abs(CasState(cell, threads)).threads) == AboutToReturn(threads)
  {
    if threads != [] {
      var t := |threads| - 1;
      AboutToReturnRefines(cell, threads[..t]);
      assert Abs(CasState(cell, threads)).threads[..t] == Abs(CasState(cell, threads[..t])).threads;
    }
  }

  /** So what holds of the atomic operations holds of these bodies, of what their callers see. */
  lemma CasLaws(r: Run)
    requires Legal(r)
    ensures Laws.Lawful(Init(r), CompletedOps(r), Last(r).cell)
  {
    CasRefinesAtomic(r);
    InitRefines(r);
    ReturnsAreAnswered(AbsRun(r));
    AboutToReturnRefines(Last(r).cell, Last(r).threads);
    Laws.AllLaws(AbsRun(r));
  }

  ghost function Init(r: Run): Word {
    match r
    case Begin(_, s) => s.cell
    case Step(b, _) => Init(b)
  }

  lemma {:induction false} InitRefines(r: Run)
    requires Legal(r)
    ensures Spec.Init(AbsRun(r)) == Init(r)
  {
    if r.Step? { InitRefines(r.before); }
  }

  /** No thread ever waits for another: whatever state it is in, it can go on. */
  lemma NeverBlocks(s: CasState, t: nat)
    requires t < |s.threads|
    ensures exists l: Label :: l.t == t && Enabled(s, l)
  {
    var l := match s.threads[t]
      case Out => Label.Call(t, Load)
      case Ended(_, ret) => Label.Return(t, ret)
      case _ => Access(t);
    assert l.t == t && Enabled(s, l);
  }

  // ---- Progress: a retry is paid for by another thread changing the cell.

  /** A loop whose next compare-and-swap will fail. */
  ghost predicate Stale(x: CasThread, cell: Word) {
    x.Retrying? && x.tmp != cell
  }

  ghost function StaleCount(threads: seq<CasThread>, cell: Word): nat {
    if threads == [] then 0 else
      var k := |threads| - 1;
      StaleCount(threads[..k], cell) + if Stale(threads[k], cell) then 1 else 0
  }

  /** Whether the next step changes what the cell holds. */
  ghost predicate Changes(p: Platform, s: CasState, l: Label)
    requires Enabled(s, l)
  {
    Next(p, s, l).cell != s.cell
  }

  /** Whether the next step is a compare-and-swap that fails and will be retried. */
  ghost predicate Fails(s: CasState, l: Label)
    requires Enabled(s, l)
  {
    l.Access? && Stale(s.threads[l.t], s.cell)
  }

  ghost function ChangeCount(r: Run): nat
    requires Legal(r)
  {
    match r
    case Begin(_, _) => 0
    case Step(b, l) => ChangeCount(b) + if Changes(On(b), Last(b), l) then 1 else 0
  }

  ghost function FailureCount(r: Run): nat
    requires Legal(r)
  {
    match r
    case Begin(_, _) => 0
    case Step(b, l) => FailureCount(b) + if Fails(Last(b), l) then 1 else 0
  }

  lemma {:induction false} StaleUpdate(threads: seq<CasThread>, cell: Word, t: nat, x: CasThread)
    requires t < |threads|
    ensures StaleCount(threads[t := x], cell) + (if Stale(threads[t], cell) then 1 else 0) ==
            StaleCount(threads, cell) + (if Stale(x, cell) then 1 else 0)
  {
    var k := |threads| - 1;
    if t == k {
      assert threads[t := x][..k] == threads[..k];
    } else {
      StaleUpdate(threads[..k], cell, t, x);
      assert threads[t := x][..k] == threads[..k][t := x];
    }
  }

  lemma {:induction false} StaleAtMostAll(threads: seq<CasThread>, cell: Word)
    ensures StaleCount(threads, cell) <= |threads|
  {
    if threads != [] { StaleAtMostAll(threads[..|threads| - 1], cell); }
  }

  lemma {:induction false} StaleAtMostOthers(threads: seq<CasThread>, cell: Word, t: nat)
    requires t < |threads| && !Stale(threads[t], cell)
    ensures StaleCount(threads, cell) <= |threads| - 1
  {
    var k := |threads| - 1;
    if t == k {
      StaleAtMostAll(threads[..k], cell);
    } else {
      StaleAtMostOthers(threads[..k], cell, t);
    }
  }

  /** How one step moves the number of stale loops. */
  lemma StaleStep(p: Platform, s: CasState, l: Label)
    requires Enabled(s, l)
    ensures var s' := Next(p, s, l);
            && |s'.threads| == |s.threads|
            && (Changes(p, s, l) ==> !Fails(s, l) && StaleCount(s'.threads, s'.cell) <= |s.threads| - 1)
            && (!Changes(p, s, l) ==>
                  StaleCount(s'.threads, s'.cell) + (if Fails(s, l) then 1 else 0) ==
                  StaleCount(s.threads, s.cell))
  {
    var s' := Next(p, s, l);
    if Changes(p, s, l) {
      StaleAtMostOthers(s'.threads, s'.cell, l.t);
    } else {
      StaleUpdate(s.threads, s.cell, l.t, s'.threads[l.t]);
    }
  }

  /** Over any run of N threads, failed compare-and-swaps number at most N - 1 for every change of the
      cell: as long as loops fail, some operation gets through. */
  lemma {:induction false} RetriesAreBounded(r: Run)
    requires Legal(r) && |Last(r).threads| > 0
    ensures FailureCount(r) + StaleCount(Last(r).threads, Last(r).cell)
            <= (|Last(r).threads| - 1) * ChangeCount(r)
  {
    match r
    case Begin(_, s) => NoneStale(s.threads, s.cell);
    case Step(b, l) =>
      var s := Last(b);
      StaleStep(On(b), s, l);
      RetriesAreBounded(b);
      BoundStep(|s.threads| - 1, ChangeCount(b), FailureCount(b) + StaleCount(s.threads, s.cell),
                FailureCount(r) + StaleCount(Last(r).threads, Last(r).cell), Changes(On(b), s, l));
  }

  lemma BoundStep(n: int, c: nat, w: nat, w': nat, changed: bool)
    requires w <= n * c && if changed then w' <= w + n else w' == w
    ensures w' <= n * (c + if changed then 1 else 0)
  {
    assert n * (c + 1) == n * c + n;
  }

  lemma {:induction false} NoneStale(threads: seq<CasThread>, cell: Word)
    requires forall t | 0 <= t < |threads| :: threads[t] == Out
    ensures StaleCount(threads, cell) == 0
  {
    if threads != [] { NoneStale(threads[..|threads| - 1], cell); }
  }

  /** Accesses thread `t` has made since its last call. */
  ghost function Accesses(t: nat, r: Run): nat {
    match r
    case Begin(_, _) => 0
    case Step(b, Call(u, _)) => if u == t then 0 else Accesses(t, b)
    case Step(b, Access(u)) => Accesses(t, b) + if u == t then 1 else 0
    case Step(b, Return(_, _)) => Accesses(t, b)
  }

  /** Changes of the cell by other threads since the last call of `t`. */
  ghost function Disturbances(t: nat, r: Run): nat
    requires Legal(r)
  {
    match r
    case Begin(_, _) => 0
    case Step(b, l) =>
      if l.t == t then if l.Call? then 0 else Disturbances(t, b)
      else Disturbances(t, b) + if Changes(On(b), Last(b), l) then 1 else 0
  }

  /** One operation makes at most two accesses more than other threads changed the cell meanwhile; a
      loop that is left alone succeeds at once. */
  lemma {:induction false} OperationIsBounded(r: Run, t: nat)
    requires Legal(r) && t < |Last(r).threads|
    ensures match Last(r).threads[t]
            case Out => true
            case Entered(_) => Accesses(t, r) == 0
            case Retrying(_, tmp) =>
              Accesses(t, r) + (if tmp != Last(r).cell then 1 else 0) <= Disturbances(t, r) + 1
            case Ended(_, _) => 1 <= Accesses(t, r) <= Disturbances(t, r) + 2
  {
    match r
    case Begin(_, _) =>
    case Step(b, l) => OperationIsBounded(b, t);
  }

  /** Fetch-and-store is a loop on every platform: of two threads that have read 0, the slower one fails once. */
  lemma FetchAndStoreCanFail(p: Platform)
    ensures exists r :: Legal(r) && On(r) == p && FailureCount(r) == 1
              && Visible(r) == [Invoked(0, Fas(1)), Invoked(1, Fas(2))]
  {
    var a, b := Fas(1), Fas(2);
    var r0 := Begin(p, CasState(0, [Out, Out]));
    var r1 := Extend(r0, Label.Call(0, a), CasState(0, [Entered(a), Out]));
    var r2 := Extend(r1, Label.Call(1, b), CasState(0, [Entered(a), Entered(b)]));
    var r3 := Extend(r2, Access(0), CasState(0, [Retrying(a, 0), Entered(b)]));
    var r4 := Extend(r3, Access(1), CasState(0, [Retrying(a, 0), Retrying(b, 0)]));
    var r5 := Extend(r4, Access(1), CasState(2, [Retrying(a, 0), Ended(b, Value(0))]));
    var r6 := Extend(r5, Access(0), CasState(2, [Retrying(a, 2), Ended(b, Value(0))]));
    assert Visible(r6) == [Invoked(0, a), Invoked(1, b)];
  }

  lemma Extend(b: Run, l: Label, s: CasState) returns (r: Run)
    requires Legal(b) && Enabled(Last(b), l) && Next(On(b), Last(b), l) == s
    ensures r == Step(b, l) && Legal(r) && On(r) == On(b) && Last(r) == s
    ensures FailureCount(r) == FailureCount(b) + if Fails(Last(b), l) then 1 else 0
    ensures Visible(r) == Visible(b) + match l
                                       case Call(t, op) => [Invoked(t, op)]
                                       case Return(t, ret) => [Returned(t, ret)]
                                       case _ => []
  {
    r := Step(b, l);
  }
}
