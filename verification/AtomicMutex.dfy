/** The bodies of atomic/rwlock.h: plain reads and writes of the cell, one access at a time, between
    `my_atomic_rwlock_wrlock` and `..._wrunlock`, which are a mutex (or, in the "dummy" mode, nothing).
    With the mutex every run is a run of `AtomicSpec` to its callers; without it updates get lost. */
module AtomicMutex {
  import opened AtomicSpec
  import Spec = AtomicSpec
  import Laws = AtomicLaws

  /** Whether the lock macros lock. */
  datatype Mode = Mutex | Dummy

  /** A thread outside the lock, or inside it and between operations, or part of the way through a body:
      `Read1` has read the cell once, `Read2` twice, and `Ended` has the result. */
  datatype LockThread =
    | Outside
    | Inside
    | Entered(op: Op)
    | Read1(op: Op, sav: Word)
    | Read2(op: Op, sav: Word, cur: Word)
    | Ended(op: Op, ret: Ret)

  datatype LockState = LockState(cell: Word, threads: seq<LockThread>)

  datatype Label = Lock(t: nat) | Unlock(t: nat) | Call(t: nat, op: Op) | Access(t: nat) | Return(t: nat, ret: Ret)

  ghost predicate Free(threads: seq<LockThread>) {
    forall u | 0 <= u < |threads| :: threads[u].Outside?
  }

  ghost predicate Enabled(m: Mode, s: LockState, l: Label) {
    && l.t < |s.threads|
    && match l
       case Lock(t) => s.threads[t].Outside? && (m == Mutex ==> Free(s.threads))
       case Unlock(t) => s.threads[t].Inside?
       case Call(t, _) => s.threads[t].Inside?
       case Access(t) => s.threads[t].Entered? || s.threads[t].Read1? || s.threads[t].Read2?
       case Return(t, ret) => s.threads[t].Ended? && s.threads[t].ret == ret
  }

  /** The next access of a body: what the cell and the thread become. */
  function Body(x: LockThread, cell: Word): (Word, LockThread)
    requires x.Entered? || x.Read1? || x.Read2?
  {
    match x
    case Entered(Load) => (cell, Ended(Load, Value(cell)))            // ret= *a
    case Entered(Store(v)) => (v, Ended(x.op, Nothing))               // *a= v
    case Entered(op) => (cell, Read1(op, cell))                       // sav= *a, or *a == *cmp
    case Read1(Add(v), sav) => (cell, Read2(x.op, sav, cell))         // *a+= v reads again
    case Read1(Cas(cmp, new_), sav) =>
      if sav == cmp then (new_, Ended(x.op, Swapped(true, cmp)))      // *a= set
      else (cell, Ended(x.op, Swapped(false, cell)))                  // *cmp= *a
    case Read1(op, sav) => (Stored(op), Ended(op, Value(sav)))        // *a= v
    case Read2(op, sav, cur) => (Wrap(cur + Stored(op)), Ended(op, Value(sav)))
    case _ => assert false; (cell, x)
  }

  function Stored(op: Op): Word {
    match op
    case Add(v) => v
    case Fas(v) => v
    case Store(v) => v
    case Cas(_, new_) => new_
    case Load => 0
  }

  ghost function Next(m: Mode, s: LockState, l: Label): LockState
    requires Enabled(m, s, l)
  {
    match l
    case Lock(t) => s.(threads := s.threads[t := Inside])
    case Unlock(t) => s.(threads := s.threads[t := Outside])
    case Call(t, op) => s.(threads := s.threads[t := Entered(op)])
    case Access(t) =>
      var (cell', x') := Body(s.threads[t], s.cell);
      LockState(cell', s.threads[t := x'])
    case Return(t, _) => s.(threads := s.threads[t := Inside])
  }

  datatype Run = Begin(m: Mode, init: LockState) | Step(before: Run, step: Label)

  ghost function In(r: Run): Mode {
    match r
    case Begin(m, _) => m
    case Step(b, _) => In(b)
  }

  ghost predicate Legal(r: Run)
    decreases r, 0
  {
    match r
    case Begin(_, s) => Free(s.threads)
    case Step(b, l) => Legal(b) && Enabled(In(b), Last(b), l)
  }

  ghost function Last(r: Run): LockState
    requires Legal(r)
    decreases r, 1
  {
    match r
    case Begin(_, s) => s
    case Step(b, l) => Next(In(b), Last(b), l)
  }

  ghost function Visible(r: Run): seq<Event> {
    match r
    case Begin(_, _) => []
    case Step(b, Call(t, op)) => Visible(b) + [Invoked(t, op)]
    case Step(b, Return(t, ret)) => Visible(b) + [Returned(t, ret)]
    case Step(b, _) => Visible(b)
  }

  /** What a thread in the middle of a body knows: the cell still holds what it read. */
  ghost predicate Current(x: LockThread, cell: Word) {
    match x
    case Read1(op, sav) => sav == cell && !op.Load? && !op.Store?
    case Read2(op, sav, cur) => sav == cell && cur == cell && op.Add?
    case _ => true
  }

  /** At most one thread is inside, and what it read is current. */
  ghost predicate Exclusive(s: LockState) {
    && (forall t, u | 0 <= t < u < |s.threads| :: s.threads[t].Outside? || s.threads[u].Outside?)
    && (forall t | 0 <= t < |s.threads| :: Current(s.threads[t], s.cell))
  }

  lemma {:induction false} MutualExclusion(r: Run)
    requires Legal(r) && In(r) == Mutex
    ensures Exclusive(Last(r))
  {
    if r.Step? { MutualExclusion(r.before); }
  }

  /** Some thread can always go on: one inside the lock, or else any, since the lock is free. */
  lemma NeverStuck(r: Run)
    requires Legal(r) && |Last(r).threads| > 0
    ensures exists l: Label :: Enabled(In(r), Last(r), l)
  {
    var s := Last(r);
    if t: nat :| t < |s.threads| && !s.threads[t].Outside? {
      var l := match s.threads[t]
        case Inside => Unlock(t)
        case Ended(_, ret) => Label.Return(t, ret)
        case _ => Access(t);
      assert Enabled(In(r), s, l);
    } else {
      assert Enabled(In(r), s, Lock(0));
    }
  }

  function AbsThread(x: LockThread): Thread {
    match x
    case Outside => Idle
    case Inside => Idle
    case Entered(op) => Called(op)
    case Read1(op, _) => Called(op)
    case Read2(op, _, _) => Called(op)
    case Ended(op, ret) => Finished(op, ret)
  }

  ghost function Abs(s: LockState): State {
    State(s.cell, seq(|s.threads|, i requires 0 <= i < |s.threads| => AbsThread(s.threads[i])))
  }

  /** Whether access `t` is the last one of its body. */
  ghost predicate TakesEffect(s: LockState, t: nat)
    requires t < |s.threads| && (s.threads[t].Entered? || s.threads[t].Read1? || s.threads[t].Read2?)
  {
    Body(s.threads[t], s.cell).1.Ended?
  }

  ghost function AbsRun(r: Run): Spec.Run
    requires Legal(r)
  {
    match r
    case Begin(_, s) => Spec.Start(Abs(s))
    case Step(b, Call(t, op)) => Spec.Then(AbsRun(b), Spec.Call(t, op))
    case Step(b, Return(t, ret)) => Spec.Then(AbsRun(b), Spec.Return(t, ret))
    case Step(b, Access(t)) =>
      if TakesEffect(Last(b), t) then Spec.Then(AbsRun(b), Effect(t)) else AbsRun(b)
    case Step(b, _) => AbsRun(b)
  }

  /** Under the mutex the last access of a body is the whole operation, and the others are invisible. */
  lemma AccessRefines(s: LockState, t: nat)
    requires Exclusive(s) && Enabled(Mutex, s, Access(t))
    ensures if TakesEffect(s, t)
            then Spec.Enabled(Abs(s), Effect(t)) && Abs(Next(Mutex, s, Access(t))) == Spec.Next(Abs(s), Effect(t))
            else Abs(Next(Mutex, s, Access(t))) == Abs(s)
  {
    var s' := Next(Mutex, s, Access(t));
    assert Current(s.threads[t], s.cell);
    if TakesEffect(s, t) {
      assert Abs(s').threads == Spec.Next(Abs(s), Effect(t)).threads;
    } else {
      assert Abs(s').threads == Abs(s).threads;
    }
  }

  /** Under the mutex, from the first access of a body to the one at which it takes effect the cell is the same,
      and the body does to it what is documented; a load hands back that cell and leaves it alone, and a store
      leaves its value. */
  lemma EffectIsDocumented(s: LockState, t: nat)
    requires Exclusive(s) && Enabled(Mutex, s, Access(t))
    ensures var s', op := Next(Mutex, s, Access(t)), s.threads[t].op;
            if TakesEffect(s, t) then
              && s'.threads[t].Ended? && s'.threads[t].op == op
              && Documented(op, s.cell, s'.cell, s'.threads[t].ret)
              && (op.Load? ==> s'.threads[t] == Ended(Load, Value(s.cell)) && s'.cell == s.cell)
              && (op.Store? ==> s'.threads[t] == Ended(op, Nothing) && s'.cell == op.v)
            else !s'.threads[t].Ended? && s'.cell == s.cell
  {
    assert Current(s.threads[t], s.cell);
  }

  /** Every interleaving of the mutex bodies is, to the callers, an interleaving of the atomic
      operations: the same specification that the lock-free bodies meet. */
  lemma {:induction false} MutexRefinesAtomic(r: Run)
    requires Legal(r) && In(r) == Mutex
    ensures Spec.Legal(AbsRun(r))
    ensures Spec.Last(AbsRun(r)) == Abs(Last(r))
    ensures Spec.Visible(AbsRun(r)) == Visible(r)
  {
    match r
    case Begin(_, _) =>
    case Step(b, l) =>
      MutexRefinesAtomic(b);
      MutualExclusion(b);
      var s := Last(b);
      match l
      case Lock(t) => assert Abs(Last(r)).threads == Abs(s).threads;
      case Unlock(t) => assert Abs(Last(r)).threads == Abs(s).threads;
      case Call(t, op) => assert Abs(Last(r)).threads == Abs(s).threads[t := Called(op)];
      case Return(t, _) => assert Abs(Last(r)).threads == Abs(s).threads[t := Idle];
      case Access(t) => AccessRefines(s, t);
  }

  /** Operations that are done and about to return. */
  ghost function AboutToReturn(threads: seq<LockThread>): seq<Done> {
    if threads == [] then [] else
      var t := |threads| - 1;
      AboutToReturn(threads[..t]) + match threads[t]
                                    case Ended(op, ret) => [Done(t, op, ret)]
                                    case _ => []
  }

  ghost function CompletedOps(r: Run): seq<Done>
    requires Legal(r)
  {
    Answered(Visible(r)) + AboutToReturn(Last(r).threads)
  }

  lemma {:induction false} AboutToReturnRefines(cell: Word, threads: seq<LockThread>)
    ensures InFlight(Abs(LockState(cell, threads)).threads) == AboutToReturn(threads)
  {
    if threads != [] {
      var t := |threads| - 1;
      AboutToReturnRefines(cell, threads[..t]);
      assert Abs(LockState(cell, threads)).threads[..t] == Abs(LockState(cell, threads[..t])).threads;
    }
  }

  lemma MutexLaws(r: Run)
    requires Legal(r) && In(r) == Mutex
    ensures Laws.Lawful(Init(r), CompletedOps(r), Last(r).cell)
  {
    MutexRefinesAtomic(r);
    InitRefines(r);
    ReturnsAreAnswered(AbsRun(r));
    AboutToReturnRefines(Last(r).cell, Last(r).threads);
    Laws.AllLaws(AbsRun(r));
  }

  ghost function Init(r: Run): Word {
    match r
    case Begin(_, s) => s.cell
    case Step(b, _) => Init(b)
  }

  lemma {:induction false} InitRefines(r: Run)
    requires Legal(r)
    ensures Spec.Init(AbsRun(r)) == Init(r)
  {
    if r.Step? { InitRefines(r.before); }
  }

  /** The lock is needed: in dummy mode two increments of a zero cell can both return 0 and leave 1. */
  lemma DummyLosesUpdate()
    ensures exists r :: Legal(r) && In(r) == Dummy && Last(r).cell == 1
              && Visible(r) == [Invoked(0, Add(1)), Invoked(1, Add(1)), Returned(0, Value(0)), Returned(1, Value(0))]
  {
    var add := Add(1);
    var r0 := Begin(Dummy, LockState(0, [Outside, Outside]));
    var r1 := Extend(r0, Lock(0), LockState(0, [Inside, Outside]));
    var r2 := Extend(r1, Lock(1), LockState(0, [Inside, Inside]));
    var r3 := Extend(r2, Label.Call(0, add), LockState(0, [Entered(add), Inside]));
    var r4 := Extend(r3, Label.Call(1, add), LockState(0, [Entered(add), Entered(add)]));
    var r5 := Extend(r4, Access(0), LockState(0, [Read1(add, 0), Entered(add)]));
    var r6 := Extend(r5, Access(1), LockState(0, [Read1(add, 0), Read1(add, 0)]));
    var r7 := Extend(r6, Access(0), LockState(0, [Read2(add, 0, 0), Read1(add, 0)]));
    var r8 := Extend(r7, Access(1), LockState(0, [Read2(add, 0, 0), Read2(add, 0, 0)]));
    var r9 := Extend(r8, Access(0), LockState(1, [Ended(add, Value(0)), Read2(add, 0, 0)]));
    var r10 := Extend(r9, Access(1), LockState(1, [Ended(add, Value(0)), Ended(add, Value(0))]));
    var r11 := Extend(r10, Label.Return(0, Value(0)), LockState(1, [Inside, Ended(add, Value(0))]));
    var r12 := Extend(r11, Label.Return(1, Value(0)), LockState(1, [Inside, Inside]));
    assert Visible(r12) == [Invoked(0, add), Invoked(1, add), Returned(0, Value(0)), Returned(1, Value(0))];
  }

  lemma Extend(b: Run, l: Label, s: LockState) returns (r: Run)
    requires Legal(b) && Enabled(In(b), Last(b), l) && Next(In(b), Last(b), l) == s
    ensures r == Step(b, l) && Legal(r) && In(r) == In(b) && Last(r) == s
    ensures Visible(r) == Visible(b) + match l
                                       case Call(t, op) => [Invoked(t, op)]
                                       case Return(t, ret) => [Returned(t, ret)]
                                       case _ => []
  {
    r := Step(b, l);
  }
}
