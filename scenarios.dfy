/**
  Client code proved from the contracts of `Borrowing` alone: each method
  opens a fresh lock and plays one sequence of borrows and drops, mostly on
  a single buffer, returning the outcomes of the requests that matter.
 */
module Scenarios {
  import opened Ledger
  import opened Borrowing

  /**
    Two shared loans coexist; an exclusive request is refused as `Frozen`
    while either is live and granted once both are dropped.
   */
  method SharedLoansFreeze() returns (whileBoth: Result<RefMut>, whileOne: Result<RefMut>, afterBoth: Result<RefMut>)
    ensures whileBoth == Err(Frozen(0x1000))
    ensures whileOne == Err(Frozen(0x1000))
    ensures afterBoth.Ok?
  {
    var lock := new Lock();
    var buffer := Pointer(0x1000, 64);
    var h1 := Ref.New(lock, buffer);
    var h2 := Ref.New(lock, buffer);
    assert h1.Ok? && h2.Ok?;
    assert Lookup(lock.ledger.loans, 0x1000) == Shared(2);
    whileBoth := RefMut.New(lock, buffer);
    h1.value.Drop();
    assert Lookup(lock.ledger.loans, 0x1000) == Shared(1);
    whileOne := RefMut.New(lock, buffer);
    h2.value.Drop();
    assert Lookup(lock.ledger.loans, 0x1000) == Free;
    afterBoth := RefMut.New(lock, buffer);
  }

  /**
    An exclusive loan refuses a shared request as `Mutating` until it is
    dropped; a loan on another address is unaffected throughout.
   */
  method ExclusiveLoanRefusesReaders() returns (whileHeld: Result<Ref>, elsewhere: Result<Ref>, afterDrop: Result<Ref>)
    ensures whileHeld == Err(Mutating(0x2000))
    ensures elsewhere.Ok?
    ensures afterDrop.Ok?
  {
    var lock := new Lock();
    var buffer := Pointer(0x2000, 16);
    var h := RefMut.New(lock, buffer);
    assert h.Ok?;
    whileHeld := Ref.New(lock, buffer);
    elsewhere := Ref.New(lock, Pointer(0x2100, 16));
    h.value.Drop();
    afterDrop := Ref.New(lock, buffer);
  }

  /**
    A second exclusive request on the same address is refused as
    `Mutating`; the first handle stays live and its drop frees the address.
   */
  method SecondWriterRefused() returns (second: Result<RefMut>, state: LoanState)
    ensures second == Err(Mutating(0x3000))
    ensures state == Free
  {
    var lock := new Lock();
    var buffer := Pointer(0x3000, 8);
    var h := RefMut.New(lock, buffer);
    assert h.Ok?;
    second := RefMut.New(lock, buffer);
    h.value.Drop();
    state := Lookup(lock.ledger.loans, 0x3000);
  }

  /** The message of `Frozen` for the object at 0x4000. */
  lemma FrozenMessage()
    ensures Display(Frozen(0x4000)) == "object at 0x4000 is frozen"
  {
  }

  /** The message of `Mutating` for the object at 0x2000. */
  lemma MutatingMessage()
    ensures Display(Mutating(0x2000)) == "outstanding mutable loan exists for object at 0x2000"
  {
  }

  /**
    The panicking entry point turns a refused exclusive loan into a panic
    with the `Frozen` message; dropping the reader it returned empties the ledger.
   */
  method BorrowMutPanicsWhileShared() returns (o: Outcome<RefMut>, remaining: Loans)
    ensures o == Panicked("object at 0x4000 is frozen")
    ensures remaining == map[]
  {
    var lock := new Lock();
    var buffer := Pointer(0x4000, 32);
    var reader := Borrow(lock, buffer);
    assert reader.Returned?;
    o := BorrowMut(lock, buffer);
    FrozenMessage();
    reader.value.Drop();
    lock.ClosesClean();
    remaining := lock.ledger.loans;
  }
}
