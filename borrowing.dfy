/**
  Temporary access to the internals of JS values while the engine is locked:
  shared (`Ref`) and exclusive (`RefMut`) loan handles registered in the
  lock's ledger, the error type `LoanError` with its rendering, and the
  panicking `Borrow` / `BorrowMut` entry points.
 */
module Borrowing {
  import opened Ledger
  import opened PointerFormat

  /**
    The contents of a borrowable value: the base address of its storage and
    its length. Both the read address (`as_ptr`) and the write address
    (`as_mut`) are the base address.
   */
  datatype Pointer = Pointer(base: Addr, length: nat) {
    function AsPtr(): Addr { base }
    function AsMut(): Addr { base }
  }

  /**
    The message a `LoanError` displays. Both messages carry the `{:?}` text
    of the address: at the end for `Mutating`, before " is frozen" for `Frozen`.
   */
  function Display(e: LoanError): (s: string)
    ensures e.Mutating? ==> && |s| > |PointerDebug(e.addr)|
                            && s[|s| - |PointerDebug(e.addr)|..] == PointerDebug(e.addr)
    ensures e.Frozen? ==> && |s| == 20 + |PointerDebug(e.addr)|
                          && s[10..|s| - 10] == PointerDebug(e.addr)
                          && s[|s| - 10..] == " is frozen"
  {
    match e
    case Mutating(p) => "outstanding mutable loan exists for object at " + PointerDebug(p)
    case Frozen(p) => "object at " + PointerDebug(p) + " is frozen"
  }

  /** Different errors never display the same message: the text names the kind and the address. */
  lemma DisplayInjective(e1: LoanError, e2: LoanError)
    requires Display(e1) == Display(e2)
    ensures e1 == e2
  {
    var s1, s2 := Display(e1), Display(e2);
    // A frozen message ends in 'n', a mutating one in a hexadecimal digit.
    assert " is frozen"[9] == 'n';
    assert e1.Frozen? <==> s1[|s1| - 1] == 'n';
    assert e2.Frozen? <==> s2[|s2| - 1] == 'n';
    var p1, p2 := PointerDebug(e1.addr), PointerDebug(e2.addr);
    if e1.Mutating? {
      var start := |"outstanding mutable loan exists for object at "|;
      assert p1 == s1[start..] && p2 == s2[start..];
    } else {
      var start := |"object at "|;
      assert p1 == s1[start..|s1| - 10] && p2 == s2[start..|s2| - 10];
    }
    PointerDebugInjective(e1.addr, e2.addr);
  }

  /** What a panicking entry point does: return the handle, or unwind with a message. */
  datatype Outcome<T> = Returned(value: T) | Panicked(message: string)

  /** The match in `borrow` / `borrow_mut`: the `Ok` handle is returned, any `Err` panics with its message. */
  function OrPanic<T>(r: Result<T>): (o: Outcome<T>)
    ensures o.Returned? <==> r.Ok?
    ensures r.Ok? ==> o.value == r.value
    ensures r.Err? ==> o.message == Display(r.error)
  {
    match r
    case Ok(h) => Returned(h)
    case Err(e) => Panicked(Display(e))
  }

  /**
    The access-window token. It owns the ledger; the ghost sets name the
    handles currently live under it, and `Valid` says that the ledger
    entry of every address accounts for exactly those handles.
   */
  class Lock {
    const ledger: Ledger
    ghost var refs: set<Ref>
    ghost var muts: set<RefMut>

    ghost function RefsAt(a: Addr): set<Ref>
      reads this
    {
      set r | r in refs && r.pointer.AsPtr() == a
    }

    ghost function MutsAt(a: Addr): set<RefMut>
      reads this
    {
      set h | h in muts && h.pointer.AsMut() == a
    }

    ghost predicate Valid()
      reads this, ledger
    {
      && ledger.Valid()
      && (forall r | r in refs :: r.lock == this)
      && (forall h | h in muts :: h.lock == this)
      && forall a :: Records(Lookup(ledger.loans, a), |RefsAt(a)|, |MutsAt(a)|)
    }

    constructor ()
      ensures Valid() && fresh(ledger)
      ensures ledger.loans == map[] && refs == {} && muts == {}
    {
      ledger := new Ledger();
      refs, muts := {}, {};
      new;
      forall a ensures Records(Lookup(ledger.loans, a), |RefsAt(a)|, |MutsAt(a)|) {
        assert RefsAt(a) == {};
        assert MutsAt(a) == {};
      }
    }

    /** At every address at most one exclusive handle is live, and never together with a shared one. */
    lemma SharedXorExclusive()
      requires Valid()
      ensures forall a :: |MutsAt(a)| <= 1 && (|MutsAt(a)| == 1 ==> RefsAt(a) == {})
    {
      forall a ensures |MutsAt(a)| <= 1 && (|MutsAt(a)| == 1 ==> RefsAt(a) == {}) {
        RecordsSharedXorExclusive(Lookup(ledger.loans, a), |RefsAt(a)|, |MutsAt(a)|);
      }
    }

    /** When the window closes with no live handle, every loan has been settled. */
    lemma ClosesClean()
      requires Valid() && refs == {} && muts == {}
      ensures ledger.loans == map[]
    {
      forall a ensures Lookup(ledger.loans, a) == Free {
        assert RefsAt(a) == {};
        assert MutsAt(a) == {};
      }
      QuiescentIsEmpty(ledger.loans);
    }
  }

  /** A shared loan on the contents of a borrowed value. */
  class Ref {
    const pointer: Pointer
    const lock: Lock

    constructor (lock: Lock, pointer: Pointer)
      ensures this.lock == lock && this.pointer == pointer
    {
      this.lock := lock;
      this.pointer := pointer;
    }

    /**
      Registers a shared loan on `pointer` and wraps it in a handle. The
      request fails, and no handle is made, while an exclusive handle on
      the same address is live.
     */
    static method New(lock: Lock, pointer: Pointer) returns (r: Result<Ref>)
      requires lock.Valid()
      modifies lock, lock.ledger
      ensures lock.Valid() && lock.muts == old(lock.muts)
      ensures r.Ok? <==> old(|lock.MutsAt(pointer.AsPtr())|) == 0
      ensures r.Ok? ==> && fresh(r.value) && r.value.pointer == pointer && r.value.lock == lock
                        && lock.refs == old(lock.refs) + {r.value}
                        && lock.ledger.loans == Acquired(old(lock.ledger.loans), pointer.AsPtr()).value
      ensures r.Err? ==> && r.error == Mutating(pointer.AsPtr())
                         && lock.refs == old(lock.refs) && lock.ledger.loans == old(lock.ledger.loans)
    {
      var p := pointer.AsPtr();
      ghost var before := lock.ledger.loans;
      assert Records(Lookup(before, p), |lock.RefsAt(p)|, |lock.MutsAt(p)|);
      AcquireRecords(before, p, |lock.RefsAt(p)|, |lock.MutsAt(p)|);
      var status := lock.ledger.TryBorrow(p);
      if status.Err? {
        return Err(status.error);
      }
      var handle := new Ref(lock, pointer);
      lock.refs := lock.refs + {handle};
      forall a ensures Records(Lookup(lock.ledger.loans, a), |lock.RefsAt(a)|, |lock.MutsAt(a)|) {
        assert old(Records(Lookup(lock.ledger.loans, a), |lock.RefsAt(a)|, |lock.MutsAt(a)|));
        assert lock.MutsAt(a) == old(lock.MutsAt(a));
        if a == p {
          assert lock.RefsAt(a) == old(lock.RefsAt(a)) + {handle};
        } else {
          assert lock.RefsAt(a) == old(lock.RefsAt(a));
        }
      }
      r := Ok(handle);
    }

    /** Gives the handle's loan back: exactly the entry `New` created is settled. */
    method Drop()
      requires lock.Valid() && this in lock.refs
      modifies lock, lock.ledger
      ensures lock.Valid() && lock.muts == old(lock.muts)
      ensures lock.refs == old(lock.refs) - {this}
      ensures old(Lookup(lock.ledger.loans, pointer.AsPtr()).Shared?)
      ensures lock.ledger.loans == Settled(old(lock.ledger.loans), pointer.AsPtr())
    {
      var p := pointer.AsPtr();
      assert this in lock.RefsAt(p);
      SettleRecords(lock.ledger.loans, p, |lock.RefsAt(p)|, |lock.MutsAt(p)|);
      lock.ledger.Settle(p);
      lock.refs := lock.refs - {this};
      forall a ensures Records(Lookup(lock.ledger.loans, a), |lock.RefsAt(a)|, |lock.MutsAt(a)|) {
        assert old(Records(Lookup(lock.ledger.loans, a), |lock.RefsAt(a)|, |lock.MutsAt(a)|));
        assert lock.MutsAt(a) == old(lock.MutsAt(a));
        if a == p {
          assert lock.RefsAt(a) == old(lock.RefsAt(a)) - {this};
        } else {
          assert lock.RefsAt(a) == old(lock.RefsAt(a));
        }
      }
    }

    /** The borrowed contents, unchanged; only a live handle reads them, and they are under a shared loan. */
    function Deref(): (p: Pointer)
      requires lock.Valid() && this in lock.refs
      reads lock, lock.ledger
      ensures p == pointer
      ensures Lookup(lock.ledger.loans, p.AsPtr()).Shared?
    {
      assert this in lock.RefsAt(pointer.AsPtr());
      pointer
    }
  }

  /** An exclusive loan on the contents of a borrowed value. */
  class RefMut {
    const pointer: Pointer
    const lock: Lock

    constructor (lock: Lock, pointer: Pointer)
      ensures this.lock == lock && this.pointer == pointer
    {
      this.lock := lock;
      this.pointer := pointer;
    }

    /**
      Registers an exclusive loan on `pointer` and wraps it in a handle.
      The request fails, and no handle is made, while any handle on the
      same address is live: `Mutating` for an exclusive one, `Frozen` for
      shared ones.
     */
    static method New(lock: Lock, pointer: Pointer) returns (r: Result<RefMut>)
      requires lock.Valid()
      modifies lock, lock.ledger
      ensures lock.Valid() && lock.refs == old(lock.refs)
      ensures r.Ok? <==> old(|lock.RefsAt(pointer.AsMut())|) == 0 && old(|lock.MutsAt(pointer.AsMut())|) == 0
      ensures r.Ok? ==> && fresh(r.value) && r.value.pointer == pointer && r.value.lock == lock
                        && lock.muts == old(lock.muts) + {r.value}
                        && lock.ledger.loans == AcquiredMut(old(lock.ledger.loans), pointer.AsMut()).value
      ensures r.Err? ==> && r.error == (if old(|lock.MutsAt(pointer.AsMut())|) > 0
                                        then Mutating(pointer.AsMut()) else Frozen(pointer.AsMut()))
                         && lock.muts == old(lock.muts) && lock.ledger.loans == old(lock.ledger.loans)
    {
      var p := pointer.AsMut();
      ghost var before := lock.ledger.loans;
      assert Records(Lookup(before, p), |lock.RefsAt(p)|, |lock.MutsAt(p)|);
      AcquireMutRecords(before, p, |lock.RefsAt(p)|, |lock.MutsAt(p)|);
      var status := lock.ledger.TryBorrowMut(p);
      if status.Err? {
        return Err(status.error);
      }
      var handle := new RefMut(lock, pointer);
      lock.muts := lock.muts + {handle};
      forall a ensures Records(Lookup(lock.ledger.loans, a), |lock.RefsAt(a)|, |lock.MutsAt(a)|) {
        assert old(Records(Lookup(lock.ledger.loans, a), |lock.RefsAt(a)|, |lock.MutsAt(a)|));
        assert lock.RefsAt(a) == old(lock.RefsAt(a));
        if a == p {
          assert lock.MutsAt(a) == old(lock.MutsAt(a)) + {handle};
        } else {
          assert lock.MutsAt(a) == old(lock.MutsAt(a));
        }
      }
      r := Ok(handle);
    }

    /** Gives the handle's loan back: exactly the entry `New` created is settled. */
    method Drop()
      requires lock.Valid() && this in lock.muts
      modifies lock, lock.ledger
      ensures lock.Valid() && lock.refs == old(lock.refs)
      ensures lock.muts == old(lock.muts) - {this}
      ensures old(Lookup(lock.ledger.loans, pointer.AsMut())) == Exclusive
      ensures lock.ledger.loans == SettledMut(old(lock.ledger.loans), pointer.AsMut())
    {
      var p := pointer.AsMut();
      assert this in lock.MutsAt(p);
      SettleMutRecords(lock.ledger.loans, p, |lock.RefsAt(p)|, |lock.MutsAt(p)|);
      lock.ledger.SettleMut(p);
      lock.muts := lock.muts - {this};
      forall a ensures Records(Lookup(lock.ledger.loans, a), |lock.RefsAt(a)|, |lock.MutsAt(a)|) {
        assert old(Records(Lookup(lock.ledger.loans, a), |lock.RefsAt(a)|, |lock.MutsAt(a)|));
        assert lock.RefsAt(a) == old(lock.RefsAt(a));
        if a == p {
          assert lock.MutsAt(a) == old(lock.MutsAt(a)) - {this};
        } else {
          assert lock.MutsAt(a) == old(lock.MutsAt(a));
        }
      }
    }

    /** The borrowed contents, unchanged; only a live handle reads them, and no other handle shares its address. */
    function Deref(): (p: Pointer)
      requires lock.Valid() && this in lock.muts
      reads lock, lock.ledger
      ensures p == pointer
      ensures Lookup(lock.ledger.loans, p.AsMut()) == Exclusive && lock.RefsAt(p.AsMut()) == {}
    {
      assert this in lock.MutsAt(pointer.AsMut());
      pointer
    }

    /** The borrowed contents for writing, unchanged; only a live handle writes them, and it is the only one on its address. */
    function DerefMut(): (p: Pointer)
      requires lock.Valid() && this in lock.muts
      reads lock, lock.ledger
      ensures p == pointer
      ensures lock.MutsAt(p.AsMut()) == {this}
    {
      assert this in lock.MutsAt(pointer.AsMut());
      OnlyMember(lock.MutsAt(pointer.AsMut()), this);
      pointer
    }
  }

  lemma OnlyMember<T>(s: set<T>, x: T)
    ensures x in s && |s| == 1 ==> s == {x}
  {
    if x in s && |s| == 1 {
      assert s == (s - {x}) + {x};
    }
  }

  /** `borrow`: a shared loan, or a panic naming the conflicting address. */
  method Borrow(lock: Lock, pointer: Pointer) returns (o: Outcome<Ref>)
    requires lock.Valid()
    modifies lock, lock.ledger
    ensures lock.Valid() && lock.muts == old(lock.muts)
    ensures o.Returned? <==> old(|lock.MutsAt(pointer.AsPtr())|) == 0
    ensures o.Returned? ==> && fresh(o.value) && o.value.pointer == pointer && o.value.lock == lock
                            && lock.refs == old(lock.refs) + {o.value}
                            && lock.ledger.loans == Acquired(old(lock.ledger.loans), pointer.AsPtr()).value
    ensures o.Panicked? ==> && o.message == Display(Mutating(pointer.AsPtr()))
                            && lock.refs == old(lock.refs) && lock.ledger.loans == old(lock.ledger.loans)
  {
    var r := Ref.New(lock, pointer);
    o := OrPanic(r);
  }

  /** `borrow_mut`: an exclusive loan, or a panic naming the conflicting address. */
  method BorrowMut(lock: Lock, pointer: Pointer) returns (o: Outcome<RefMut>)
    requires lock.Valid()
    modifies lock, lock.ledger
    ensures lock.Valid() && lock.refs == old(lock.refs)
    ensures o.Returned? <==> old(|lock.RefsAt(pointer.AsMut())|) == 0 && old(|lock.MutsAt(pointer.AsMut())|) == 0
    ensures o.Returned? ==> && fresh(o.value) && o.value.pointer == pointer && o.value.lock == lock
                            && lock.muts == old(lock.muts) + {o.value}
                            && lock.ledger.loans == AcquiredMut(old(lock.ledger.loans), pointer.AsMut()).value
    ensures o.Panicked? ==> && o.message == Display(if old(|lock.MutsAt(pointer.AsMut())|) > 0
                                                    then Mutating(pointer.AsMut()) else Frozen(pointer.AsMut()))
                            && lock.muts == old(lock.muts) && lock.ledger.loans == old(lock.ledger.loans)
  {
    var r := RefMut.New(lock, pointer);
    o := OrPanic(r);
  }

  /** A scoped shared borrow: acquire, then drop at the end of the scope; the ledger is back where it was. */
  method ScopedBorrow(lock: Lock, pointer: Pointer) returns (r: Result<()>)
    requires lock.Valid()
    modifies lock, lock.ledger
    ensures lock.Valid() && lock.refs == old(lock.refs) && lock.muts == old(lock.muts)
    ensures lock.ledger.loans == old(lock.ledger.loans)
    ensures r.Ok? <==> old(|lock.MutsAt(pointer.AsPtr())|) == 0
  {
    var h := Ref.New(lock, pointer);
    if h.Err? {
      return Err(h.error);
    }
    SettleUndoesAcquire(old(lock.ledger.loans), pointer.AsPtr());
    h.value.Drop();
    r := Ok(());
  }

  /** A scoped exclusive borrow: acquire, then drop at the end of the scope; the ledger is back where it was. */
  method ScopedBorrowMut(lock: Lock, pointer: Pointer) returns (r: Result<()>)
    requires lock.Valid()
    modifies lock, lock.ledger
    ensures lock.Valid() && lock.refs == old(lock.refs) && lock.muts == old(lock.muts)
    ensures lock.ledger.loans == old(lock.ledger.loans)
    ensures r.Ok? <==> old(|lock.RefsAt(pointer.AsMut())|) == 0 && old(|lock.MutsAt(pointer.AsMut())|) == 0
  {
    var h := RefMut.New(lock, pointer);
    if h.Err? {
      return Err(h.error);
    }
    SettleMutUndoesAcquireMut(old(lock.ledger.loans), pointer.AsMut());
    h.value.Drop();
    r := Ok(());
  }
}
