/**
  The loan ledger owned by a lock: for every address of a borrowed value it
  records whether the value is free, lent out to some number of shared
  readers, or lent out to one exclusive writer.

  The pure functions below are the specification of the ledger's four
  transitions; the class `Ledger` is the mutable table that the handles of
  the `Borrowing` module update in place.
 */
module Ledger {

  /** An address identifies a borrowable region; it is compared, never dereferenced. */
  type Addr = nat

  type Positive = n: nat | 1 <= n witness 1

  /** The loan state of one address. */
  datatype LoanState = Free | Shared(count: Positive) | Exclusive

  /** Why a loan was refused, with the address of the object concerned. */
  datatype LoanError =
    | Mutating(addr: Addr)  // an exclusive loan is outstanding
    | Frozen(addr: Addr)    // one or more shared loans are outstanding

  datatype Result<T> = Ok(value: T) | Err(error: LoanError)

  type Loans = map<Addr, LoanState>

  /** The state of address `a`: an address without an entry is free. */
  function Lookup(m: Loans, a: Addr): LoanState {
    if a in m then m[a] else Free
  }

  /** Free addresses are not stored, so every state has exactly one representation. */
  predicate WellFormed(m: Loans) {
    forall a | a in m :: m[a] != Free
  }

  function SharedCount(s: LoanState): nat {
    if s.Shared? then s.count else 0
  }

  /** Sets the state of `a` to `s`, dropping the entry when `s` is `Free`. */
  function Put(m: Loans, a: Addr, s: LoanState): (r: Loans)
    ensures Lookup(r, a) == s
    ensures forall b :: b != a ==> Lookup(r, b) == Lookup(m, b)
    ensures WellFormed(m) ==> WellFormed(r)
  {
    if s == Free then m - {a} else m[a := s]
  }

  /** A shared loan on `a`: refused only while an exclusive loan is outstanding. */
  function Acquired(m: Loans, a: Addr): (r: Result<Loans>)
    ensures r.Err? <==> Lookup(m, a) == Exclusive
    ensures r.Err? ==> r.error == Mutating(a)
    ensures r.Ok? ==> Lookup(r.value, a) == Shared(SharedCount(Lookup(m, a)) + 1)
    ensures r.Ok? ==> forall b :: b != a ==> Lookup(r.value, b) == Lookup(m, b)
    ensures r.Ok? && WellFormed(m) ==> WellFormed(r.value)
  {
    match Lookup(m, a)
    case Exclusive => Err(Mutating(a))
    case Free => Ok(Put(m, a, Shared(1)))
    case Shared(n) => Ok(Put(m, a, Shared(n + 1)))
  }

  /** An exclusive loan on `a`: refused while any loan is outstanding. */
  function AcquiredMut(m: Loans, a: Addr): (r: Result<Loans>)
    ensures r.Err? <==> Lookup(m, a) != Free
    ensures Lookup(m, a) == Exclusive ==> r == Err(Mutating(a))
    ensures Lookup(m, a).Shared? ==> r == Err(Frozen(a))
    ensures r.Ok? ==> Lookup(r.value, a) == Exclusive
    ensures r.Ok? ==> forall b :: b != a ==> Lookup(r.value, b) == Lookup(m, b)
    ensures r.Ok? && WellFormed(m) ==> WellFormed(r.value)
  {
    match Lookup(m, a)
    case Exclusive => Err(Mutating(a))
    case Shared(_) => Err(Frozen(a))
    case Free => Ok(Put(m, a, Exclusive))
  }

  /** Gives back one shared loan on `a`. */
  function Settled(m: Loans, a: Addr): (r: Loans)
    requires Lookup(m, a).Shared?
    ensures SharedCount(Lookup(r, a)) == Lookup(m, a).count - 1
    ensures Lookup(r, a) == Free || Lookup(r, a).Shared?
    ensures forall b :: b != a ==> Lookup(r, b) == Lookup(m, b)
    ensures WellFormed(m) ==> WellFormed(r)
  {
    var n := Lookup(m, a).count;
    Put(m, a, if n == 1 then Free else Shared(n - 1))
  }

  /** Gives back the exclusive loan on `a`. */
  function SettledMut(m: Loans, a: Addr): (r: Loans)
    requires Lookup(m, a) == Exclusive
    ensures Lookup(r, a) == Free
    ensures forall b :: b != a ==> Lookup(r, b) == Lookup(m, b)
    ensures WellFormed(m) ==> WellFormed(r)
  {
    Put(m, a, Free)
  }

  /** Two well-formed ledgers that agree on every address are the same ledger. */
  lemma SameLoans(m1: Loans, m2: Loans)
    requires WellFormed(m1) && WellFormed(m2)
    requires forall a :: Lookup(m1, a) == Lookup(m2, a)
    ensures m1 == m2
  {
    assert m1.Keys == m2.Keys by {
      forall a ensures a in m1 <==> a in m2 {
        assert Lookup(m1, a) == Lookup(m2, a);
      }
    }
    forall a | a in m1 ensures m1[a] == m2[a] {
      assert Lookup(m1, a) == Lookup(m2, a);
    }
  }

  /** A ledger in which every address is free holds no entry at all. */
  lemma QuiescentIsEmpty(m: Loans)
    requires WellFormed(m)
    requires forall a :: Lookup(m, a) == Free
    ensures m == map[]
  {
    SameLoans(m, map[]);
  }

  /** Settling a shared loan just acquired restores the ledger exactly. */
  lemma SettleUndoesAcquire(m: Loans, a: Addr)
    requires WellFormed(m) && Acquired(m, a).Ok?
    ensures Settled(Acquired(m, a).value, a) == m
  {
  }

  /** Settling an exclusive loan just acquired restores the ledger exactly. */
  lemma SettleMutUndoesAcquireMut(m: Loans, a: Addr)
    requires WellFormed(m) && AcquiredMut(m, a).Ok?
    ensures SettledMut(AcquiredMut(m, a).value, a) == m
  {
  }

  /**
    The entry `s` of an address accounts for exactly `shared` live shared
    handles and `exclusive` live exclusive handles on that address.
   */
  predicate Records(s: LoanState, shared: nat, exclusive: nat) {
    match s
    case Free => shared == 0 && exclusive == 0
    case Shared(n) => shared == n && exclusive == 0
    case Exclusive => shared == 0 && exclusive == 1
  }

  /** Whatever an entry records, shared loans may coexist but an exclusive one excludes every other. */
  lemma RecordsSharedXorExclusive(s: LoanState, shared: nat, exclusive: nat)
    requires Records(s, shared, exclusive)
    ensures exclusive <= 1
    ensures exclusive == 1 ==> shared == 0
  {
  }

  /** A shared request succeeds exactly when no exclusive handle is live, and then counts one more reader. */
  lemma AcquireRecords(m: Loans, a: Addr, shared: nat, exclusive: nat)
    requires Records(Lookup(m, a), shared, exclusive)
    ensures Acquired(m, a).Ok? <==> exclusive == 0
    ensures Acquired(m, a).Ok? ==> Records(Lookup(Acquired(m, a).value, a), shared + 1, exclusive)
  {
  }

  /** An exclusive request succeeds exactly when no handle is live; Frozen means readers, Mutating a writer. */
  lemma AcquireMutRecords(m: Loans, a: Addr, shared: nat, exclusive: nat)
    requires Records(Lookup(m, a), shared, exclusive)
    ensures AcquiredMut(m, a).Ok? <==> shared == 0 && exclusive == 0
    ensures AcquiredMut(m, a) == Err(Frozen(a)) <==> shared > 0
    ensures AcquiredMut(m, a) == Err(Mutating(a)) <==> exclusive > 0
    ensures AcquiredMut(m, a).Ok? ==> Records(Lookup(AcquiredMut(m, a).value, a), shared, exclusive + 1)
  {
  }

  /** A live shared handle guarantees a shared entry, and settling it counts one reader fewer. */
  lemma SettleRecords(m: Loans, a: Addr, shared: nat, exclusive: nat)
    requires Records(Lookup(m, a), shared, exclusive) && shared >= 1
    ensures Lookup(m, a).Shared?
    ensures Records(Lookup(Settled(m, a), a), shared - 1, exclusive)
  {
  }

  /** A live exclusive handle guarantees an exclusive entry, and settling it frees the address. */
  lemma SettleMutRecords(m: Loans, a: Addr, shared: nat, exclusive: nat)
    requires Records(Lookup(m, a), shared, exclusive) && exclusive >= 1
    ensures Lookup(m, a) == Exclusive
    ensures Records(Lookup(SettledMut(m, a), a), shared, exclusive - 1)
  {
  }

  /** The mutable table; its methods implement the transitions specified above. */
  class Ledger {
    var loans: Loans

    ghost predicate Valid()
      reads this
    {
      WellFormed(loans)
    }

    constructor ()
      ensures Valid() && loans == map[]
    {
      loans := map[];
    }

    method TryBorrow(p: Addr) returns (r: Result<()>)
      requires Valid()
      modifies this
      ensures Valid()
      ensures r.Ok? <==> Acquired(old(loans), p).Ok?
      ensures r.Ok? ==> loans == Acquired(old(loans), p).value
      ensures r.Err? ==> r.error == Acquired(old(loans), p).error && loans == old(loans)
    {
      match Lookup(loans, p)
      case Exclusive =>
        r := Err(Mutating(p));
      case Free =>
        loans := loans[p := Shared(1)];
        r := Ok(());
      case Shared(n) =>
        loans := loans[p := Shared(n + 1)];
        r := Ok(());
    }

    method TryBorrowMut(p: Addr) returns (r: Result<()>)
      requires Valid()
      modifies this
      ensures Valid()
      ensures r.Ok? <==> AcquiredMut(old(loans), p).Ok?
      ensures r.Ok? ==> loans == AcquiredMut(old(loans), p).value
      ensures r.Err? ==> r.error == AcquiredMut(old(loans), p).error && loans == old(loans)
    {
      match Lookup(loans, p)
      case Exclusive =>
        r := Err(Mutating(p));
      case Shared(_) =>
        r := Err(Frozen(p));
      case Free =>
        loans := loans[p := Exclusive];
        r := Ok(());
    }

    method Settle(p: Addr)
      requires Valid() && Lookup(loans, p).Shared?
      modifies this
      ensures Valid() && loans == Settled(old(loans), p)
    {
      var n := loans[p].count;
      if n == 1 {
        loans := loans - {p};
      } else {
        loans := loans[p := Shared(n - 1)];
      }
    }

    method SettleMut(p: Addr)
      requires Valid() && Lookup(loans, p) == Exclusive
      modifies this
      ensures Valid() && loans == SettledMut(old(loans), p)
    {
      loans := loans - {p};
    }
  }
}
