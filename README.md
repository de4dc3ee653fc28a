# Borrow ledger of neon's JS value access

This project models how neon lends Rust code temporary access to the
internal storage of JS values (buffers and the like) while the JS engine is
locked. A lock owns a *ledger* that maps the address of each borrowed value
to its loan state: free, lent to some number of shared readers, or lent to
one exclusive writer. A shared handle (`Ref`) or an exclusive handle
(`RefMut`) is created only if the ledger grants the loan. Dropping the
handle settles exactly the entry it created (for a `RefMut`, only as long
as its pointer was not replaced through `deref_mut`, which the model does
not allow). A refused loan is a
`LoanError`: `Mutating` when an exclusive loan is outstanding, `Frozen`
when shared loans are. The panicking entry points `borrow` / `borrow_mut`
turn that error into a panic whose message is the error's `Display` text.

Files and modules:

- `ledger.dfy`, module `Ledger`: addresses, `LoanState`, `LoanError`, the
  four ledger transitions as functions on `map<Addr, LoanState>`, the
  `Records` relation between an entry and the handles live on its address,
  and the class `Ledger` whose methods update the map in place.
- `pointer_format.dfy`, module `PointerFormat`: the `{:?}` rendering of a
  raw pointer (`0x` and lower-case hex digits) with its inverse.
- `borrowing.dfy`, module `Borrowing`: `Pointer`, the error's `Display`,
  the classes `Lock`, `Ref` and `RefMut`, and `borrow` / `borrow_mut`.
- `scenarios.dfy`, module `Scenarios`: client methods that open a lock and
  borrow and drop handles, mostly on one buffer (one of them also borrows a
  second address), with their outcomes proved from the contracts alone.

The central invariant is `Borrowing.Lock.Valid`. The lock keeps ghost sets
of its live `Ref` and `RefMut` handles. For every address, the ledger entry
`Records` exactly the number of live handles on that address. So a `Shared(n)`
entry means exactly `n` live readers and no writer, and `Exclusive` means
exactly one writer and no reader. Every `New` and `Drop` preserves this.
`Drop` requires the handle to be live, so the entry it settles always exists,
and a handle cannot be settled twice.

## Model

| member | source | states |
|---|---|---|
| `Ledger.Acquired` | src/borrow/mod.rs:28-31 | a shared loan is refused exactly when an exclusive loan is outstanding on the address, with `Mutating(addr)`; otherwise the reader count of that address goes up by one, every other address keeps its state, and well-formedness is kept |
| `Ledger.AcquiredMut` | src/borrow/mod.rs:48-62 | an exclusive loan is refused exactly when the address is not free: `Mutating(addr)` under an exclusive loan, `Frozen(addr)` under shared loans; otherwise the address becomes exclusive and every other address keeps its state |
| `Ledger.Settled` | src/borrow/mod.rs:93-98 | settling one shared loan lowers the reader count by one (the last one frees the address) and leaves every other address unchanged |
| `Ledger.SettledMut` | src/borrow/mod.rs:122-127 | settling the exclusive loan frees the address and leaves every other address unchanged |
| `Ledger.SettleUndoesAcquire` | src/borrow/mod.rs:86-98 | a granted shared loan followed by its settlement gives back exactly the ledger it started from |
| `Ledger.SettleMutUndoesAcquireMut` | src/borrow/mod.rs:115-127 | a granted exclusive loan followed by its settlement gives back exactly the ledger it started from |
| `Ledger.RecordsSharedXorExclusive` | src/borrow/mod.rs:18-20 | whatever an entry records, at most one exclusive handle is live on the address, and none with a shared one (it places no bound on shared handles) |
| `Borrowing.Lock.SharedXorExclusive` | src/borrow/mod.rs:18-20 | under a valid lock, every address has at most one live exclusive handle, and no live shared handle while it has one |
| `Ledger.AcquireRecords` | src/borrow/mod.rs:28-31 | measured against the live handles: a shared request succeeds if and only if no exclusive handle is live, and the new entry records one more reader |
| `Ledger.AcquireMutRecords` | src/borrow/mod.rs:38-62 | measured against the live handles: an exclusive request succeeds if and only if no handle is live; it fails with `Frozen` if and only if readers are live and with `Mutating` if and only if a writer is live |
| `Ledger.SettleRecords` | src/borrow/mod.rs:93-98 | a live shared handle implies a shared entry, and settling it records one reader fewer |
| `Ledger.SettleMutRecords` | src/borrow/mod.rs:122-127 | a live exclusive handle implies an exclusive entry, and settling it records no writer |
| `Ledger.QuiescentIsEmpty` | src/borrow/mod.rs:93-98 | a well-formed ledger in which every address is free is the empty map |
| `Ledger.Ledger.TryBorrow` | src/borrow/mod.rs:88 | the in-place ledger update agrees with `Acquired`: on success the map becomes its result, on failure the map is untouched and the same error is returned |
| `Ledger.Ledger.TryBorrowMut` | src/borrow/mod.rs:117 | the in-place update agrees with `AcquiredMut` in the same way |
| `Ledger.Ledger.Settle` | src/borrow/mod.rs:96 | given a shared entry, the map becomes `Settled` of the old map |
| `Ledger.Ledger.SettleMut` | src/borrow/mod.rs:125 | given an exclusive entry, the map becomes `SettledMut` of the old map |
| `PointerFormat.ParseHexDigits` | src/borrow/mod.rs:70 | reading back the hex digits of an address gives the address |
| `PointerFormat.PointerDebugInjective` | src/borrow/mod.rs:69-74 | two addresses with the same `{:?}` text are the same address |
| `Borrowing.Display` | src/borrow/mod.rs:66-77 | `Mutating(p)` renders as "outstanding mutable loan exists for object at " followed by the `{:?}` text of `p`, and `Frozen(p)` as "object at ", that text, then " is frozen": each message carries the address in that place |
| `Borrowing.DisplayInjective` | src/borrow/mod.rs:66-77 | the message "outstanding mutable loan exists for object at p" for `Mutating(p)` and "object at p is frozen" for `Frozen(p)` never coincide for different errors: the text gives both the kind and the address |
| `Borrowing.OrPanic` | src/borrow/mod.rs:21-26 | the `Ok` handle is returned unchanged and any `Err` becomes a panic, never a success, whose message is the error's `Display` text |
| `Borrowing.Lock.ClosesClean` | src/borrow/mod.rs:93-98 | when no handle is live under a valid lock, the ledger is empty: every loan was settled |
| `Borrowing.Ref.New` | src/borrow/mod.rs:86-90 | succeeds if and only if no exclusive handle is live on `as_ptr()`; on success a fresh handle on the pointer is registered and the ledger becomes `Acquired`; on failure the error is `Mutating(as_ptr())`, no handle is registered and the ledger is unchanged; the lock's invariant is kept |
| `Borrowing.Ref.Drop` | src/borrow/mod.rs:93-98 | only a live handle can be dropped; its address holds a shared entry, the ledger becomes `Settled` at `as_ptr()`, the handle leaves the live set and the invariant is kept |
| `Borrowing.Ref.Deref` | src/borrow/mod.rs:100-106 | only a live handle under a valid lock can be dereferenced, as `drop` consumes the handle and only `new` builds one; it returns the wrapped pointer unchanged, and its address is under a shared loan |
| `Borrowing.RefMut.New` | src/borrow/mod.rs:115-119 | succeeds if and only if no handle is live on `as_mut()`; on failure the error is `Mutating` when a writer is live and `Frozen` otherwise, no handle is registered and the ledger is unchanged; on success a fresh handle is registered and the ledger becomes `AcquiredMut` |
| `Borrowing.RefMut.Drop` | src/borrow/mod.rs:122-127 | only a live handle can be dropped; its address holds the exclusive entry, the ledger becomes `SettledMut` at `as_mut()` and the invariant is kept, for a handle whose pointer was not replaced through `deref_mut` (the model's pointer is constant) |
| `Borrowing.RefMut.Deref` | src/borrow/mod.rs:129-135 | only a live handle under a valid lock can be dereferenced; it returns the wrapped pointer unchanged, its address is exclusive and no shared handle is live on it |
| `Borrowing.RefMut.DerefMut` | src/borrow/mod.rs:137-141 | only a live handle under a valid lock can be dereferenced for writing; it returns the wrapped pointer unchanged, and it is the only exclusive handle on its address |
| `Borrowing.Borrow` | src/borrow/mod.rs:18-26 | returns exactly what `Ref.New` would on success: a fresh shared handle on the pointer, tied to the same lock, registered as live, with the ledger become `Acquired` (so it can later be dropped); this happens if and only if no exclusive handle is live on the address; otherwise panics with the `Mutating` message and changes nothing |
| `Borrowing.BorrowMut` | src/borrow/mod.rs:38-46 | returns exactly what `RefMut.New` would on success: a fresh exclusive handle on the pointer, tied to the same lock, registered as live, with the ledger become `AcquiredMut`; this happens if and only if no handle is live on the address; otherwise panics with the `Mutating` or `Frozen` message and changes nothing |
| `Borrowing.ScopedBorrow` | src/borrow/mod.rs:86-98 | a shared borrow whose handle is dropped at scope end leaves the ledger and the live handles exactly as they were |
| `Borrowing.ScopedBorrowMut` | src/borrow/mod.rs:115-127 | an exclusive borrow whose handle is dropped at scope end leaves the ledger and the live handles exactly as they were |
| `Scenarios.SharedLoansFreeze` | src/borrow/mod.rs:38-62 | with two readers on a buffer an exclusive request gets `Frozen`, still `Frozen` after one reader drops, and succeeds after both drop |
| `Scenarios.ExclusiveLoanRefusesReaders` | src/borrow/mod.rs:28-31 | under an exclusive loan a shared request gets `Mutating`, a request on another address succeeds, and after the drop the shared request succeeds |
| `Scenarios.SecondWriterRefused` | src/borrow/mod.rs:48-59 | a second exclusive request on a held address gets `Mutating`, and dropping the first handle frees the address |
| `Scenarios.FrozenMessage` | src/borrow/mod.rs:72-74 | `Frozen` for the object at address 0x4000 displays as "object at 0x4000 is frozen" |
| `Scenarios.MutatingMessage` | src/borrow/mod.rs:69-71 | `Mutating` for the object at address 0x2000 displays as "outstanding mutable loan exists for object at 0x2000" |
| `Scenarios.BorrowMutPanicsWhileShared` | src/borrow/mod.rs:41-46 | `borrow_mut` under a reader taken by `borrow` panics with the message "object at 0x4000 is frozen"; dropping that reader then leaves the ledger empty |

## Left out

- `src/borrow/internal.rs`, the ledger's own code, is not part of this model. The ledger's transitions come from the doc comments of the traits and from the two `LoanError` variants. Shared loans are counted, an exclusive loan is a single flag, and an address with no loan has no entry.
- Settling a loan that does not exist is a precondition of `Ledger.Ledger.Settle` and `Ledger.Ledger.SettleMut`, not a run-time failure. `Drop` requires its handle to be live, so the model proves this precondition is always met, and dropping a handle twice cannot be verified.
- The lifetime parameters `'c` and `'a` are not modelled. A handle is tied to its lock by a `const` field and by membership in the lock's ghost sets of live handles; `Lock.Valid` states that every handle in those sets names that lock. The `Context` trait and how a lock is opened and closed are not part of this model. `Lock` has only a constructor with an empty ledger and the lemma `ClosesClean`.
- The `RefCell` borrow of `lock.ledger` is Rust's own plumbing and is not modelled.
- The `Pointer` trait and its per-type implementations are not part of this model. `Pointer` is a value holding a base address and a length; the length is carried only to give the value its shape and is never read. Both `as_ptr` and `as_mut` return the base. The `unsafe` dereferences are left out, and addresses are opaque naturals.
- The doc comment of `try_borrow_mut` (src/borrow/mod.rs:50) says the method panics, but its signature returns `Result<_, LoanError>`, as does `try_borrow`. The model follows the signature: `RefMut.New` returns the error, and only `BorrowMut` panics.
- `try_borrow` / `try_borrow_mut` are abstract in the traits and are implemented per value type elsewhere by calling `Ref::new` / `RefMut::new`. Their contract is therefore stated on `Borrowing.Ref.New` / `Borrowing.RefMut.New`, which take the value's contents directly.
- Rust runs `drop` automatically on every exit path. In the model a handle is released by an explicit `Drop` call. `ScopedBorrow` / `ScopedBorrowMut` show the normal scope exit. Unwinding is not modelled.
- A panic is the `Panicked` outcome carrying its message. The unwinding it starts is not modelled.
- Rust's private fields and move semantics are not modelled. In the model the `Ref` / `RefMut` constructors can be called directly and a dropped object still exists. Such a handle is not in the lock's set of live handles, so `Drop`, `Deref` and `DerefMut` cannot be verified on it.
- `Borrowing.RefMut.DerefMut`: returns the pointer as a value. It does not model writes to the storage through the `&mut` reference, and it does not model replacing the pointer through that reference. In the source, `drop` reads `self.pointer` when it runs (src/borrow/mod.rs:125). A caller that assigns another value through `deref_mut` therefore makes the drop settle that value's address and leaves the original address `Exclusive` for the rest of the lock. `RefMut.pointer` is a `const` in the model, so `Borrowing.RefMut.Drop` settling exactly the entry `New` created, and `Lock.Valid` surviving the drop, hold only for handles whose pointer was never replaced.
- `PointerFormat.PointerDebug` renders an address as `0x` and its lower-case hex digits. Formatter options such as width and padding are not modelled.
- The N-API forwarding functions in `crates/neon-runtime/src/napi/` and the dynamic loading in `crates/napi-dynamic-sys` are left out. They are foreign calls and process bootstrap with no logic of their own.
