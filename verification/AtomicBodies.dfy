/** The macro bodies as straight code on a cell that nobody else touches meanwhile: each does what
    my_atomic.h documents. What interleaving adds is in AtomicCas.dfy and AtomicMutex.dfy. */
module AtomicBodies {
  import opened AtomicSpec
  import AtomicCas

  class AtomicCell {
    var a: Word

    constructor (a: Word)
      ensures this.a == a
    {
      this.a := a;
    }

    /** `__sync_val_compare_and_swap`, `InterlockedCompareExchange`. */
    method ValCompareAndSwap(cmp: Word, new_: Word) returns (sav: Word)
      modifies this
      ensures (a, sav) == AtomicCas.ValCompareAndSwap(old(a), cmp, new_)
    {
      sav := a;
      if a == cmp {
        a := new_;
      }
    }

    /** The body in gcc_builtins.h; `cmp'` is what it leaves in `*cmp`. */
    method CasGcc(cmp: Word, new_: Word) returns (ret: bool, cmp': Word)
      modifies this
      ensures Documented(Op.Cas(cmp, new_), old(a), a, Swapped(ret, cmp'))
    {
      cmp' := cmp;
      var sav := ValCompareAndSwap(cmp', new_);
      ret := sav == cmp';
      if !ret {
        cmp' := sav;
      }
    }

    /** The body in generic-msvc.h. */
    method CasMsvc(cmp: Word, new_: Word) returns (ret: bool, cmp': Word)
      modifies this
      ensures Documented(Op.Cas(cmp, new_), old(a), a, Swapped(ret, cmp'))
    {
      cmp' := cmp;
      var initialCmp := cmp';
      var initialA := ValCompareAndSwap(initialCmp, new_);
      ret := initialA == initialCmp;
      if !ret {
        cmp' := initialA;
      }
    }

    /** The body in rwlock.h. */
    method CasRwlock(cmp: Word, new_: Word) returns (ret: bool, cmp': Word)
      modifies this
      ensures Documented(Op.Cas(cmp, new_), old(a), a, Swapped(ret, cmp'))
    {
      cmp' := cmp;
      ret := a == cmp';
      if ret {
        a := new_;
      } else {
        cmp' := a;
      }
    }

    /** The loop of `make_atomic_add_body` from the moment its read returned `tmp`, which other threads
        may have made stale since: a failed swap reloads it, so left alone the second attempt succeeds. */
    method AddLoop(tmp: Word, v: Word) returns (r: Word)
      modifies this
      ensures Documented(Op.Add(v), old(a), a, Value(r))
    {
      r := tmp;
      var done := false;
      while !done
        invariant if done then r == old(a) && a == Wrap(old(a) + v) else a == old(a)
        decreases if done then 0 else if r == a then 1 else 2
      {
        done, r := CasGcc(r, Wrap(r + v));
      }
    }

    method FasLoop(tmp: Word, v: Word) returns (r: Word)
      modifies this
      ensures Documented(Op.Fas(v), old(a), a, Value(r))
    {
      r := tmp;
      var done := false;
      while !done
        invariant if done then r == old(a) && a == v else a == old(a)
        decreases if done then 0 else if r == a then 1 else 2
      {
        done, r := CasGcc(r, v);
      }
    }

    /** Compare-and-swap of zero for zero: the cell keeps its value and the result is that value. */
    method Load() returns (ret: Word)
      modifies this
      ensures a == old(a) && ret == old(a)
    {
      ret := 0;
      var ok;
      ok, ret := CasGcc(ret, ret);
    }

    method Store(v: Word)
      modifies this
      ensures a == v
    {
      var was := FasLoop(a, v);
    }

    method AddRwlock(v: Word) returns (r: Word)
      modifies this
      ensures Documented(Op.Add(v), old(a), a, Value(r))
    {
      var sav := a;
      a := Wrap(a + v);
      r := sav;
    }

    method FasRwlock(v: Word) returns (r: Word)
      modifies this
      ensures Documented(Op.Fas(v), old(a), a, Value(r))
    {
      var sav := a;
      a := v;
      r := sav;
    }
  }
}
