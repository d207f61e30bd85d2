# Auth genesis import and export, modelled in Dafny

This project models the genesis coordinator of the Cosmos SDK `auth` module
(`x/auth/genesis.go`): `InitGenesis`, which loads a genesis document into the
account keeper, and `ExportGenesis`, which snapshots the keeper back into a
document. The keeper is modelled in memory, as the class
`Keeper.AccountKeeper`. Its fields are the address-to-account store, the
account-number counter and the parameter record. Its methods `NewAccount`,
`SetAccount`, `GetParams`, `SetParams` and `IterateAccounts` carry the
behaviour the genesis code relies on.

- `accounts.dfy`, module `Accounts`: accounts, their variants, the parameter record and the genesis document. It also has the address-counting lemma used by the listing proofs.
- `keeper.dfy`, module `Keeper`: the keeper class and `Enumerates`, which says that a list holds each stored account exactly once.
- `genesis.dfy`, module `Genesis`: two methods and their specification.
  - `InitGenesis` sets the params, sorts a copy of the accounts in place in an array, and runs the `NewAccount` + `SetAccount` loop.
  - `ExportGenesis` walks the iterator and appends, failing on a non-genesis account.
  - `Admit` is the specification of the import loop: the store after upserting the k-th account with number `c + k`. Lemmas about it state the overwrite, untouched-address and numbering properties.
- `roundtrip.dfy`, module `RoundTrip`: the export-then-import round trip of `x/auth/genesis_test.go`, as lemmas and as the method `ExportImport`.

Two points of the code shape the contracts:

- `sort.Slice` is not stable, so `InitGenesis` promises only that the accounts are processed sorted by declared number and as a permutation of the document. It fixes no order among equal numbers.
- `NewAccount` overwrites any number the account carries. The import loop passes it document accounts that carry numbers and relies on them being renumbered (`x/auth/genesis.go:28`).

## Model

| member | source | states |
|---|---|---|
| Accounts.IsGenesisAccount | x/auth/genesis.go:40 | the base account and both vesting variants are genesis accounts; an externally registered variant is one exactly when it implements the interface |
| Keeper.AccountKeeper.constructor | x/auth/genesis_test.go:42 | a fresh keeper has an empty store, the given counter and params |
| Keeper.AccountKeeper.GetParams | x/auth/genesis.go:35 | returns the stored parameter record |
| Keeper.AccountKeeper.SetParams | x/auth/genesis.go:16 | the stored parameter record becomes the given one; nothing else changes |
| Keeper.AccountKeeper.NewAccount | x/auth/genesis.go:28 | the result is the account with the counter's old value as its number (any declared number is overwritten); the counter advances by one; the store is not written |
| Keeper.AccountKeeper.SetAccount | x/auth/genesis.go:29 | upsert by address: the store afterwards is the old store with this address mapped to this account; it stays keyed by address |
| Keeper.AccountKeeper.IterateAccounts | x/auth/genesis.go:39-43 | a full pass visits every stored account exactly once, each as stored, in an order left open |
| Keeper.EnumerationLength | x/auth/genesis.go:39-43 | a full listing of the store has exactly one entry per stored account |
| Genesis.Admit | x/auth/genesis.go:27-30 | after the import loop the stored addresses are the old ones plus those of the admitted accounts, and the store stays keyed by address |
| Genesis.AdmitStep | x/auth/genesis.go:27-30 | one more loop iteration upserts the next account, numbered by its position after the starting counter |
| Genesis.AdmitUntouched | x/auth/genesis.go:27-30 | an address carried by no document account keeps its old entry, or stays absent |
| Genesis.AdmitLast | x/auth/genesis.go:27-30 | under each address the store holds the last admitted account with that address, with number C + its position; an earlier account with the same address is overwritten |
| Genesis.AdmitDistinct | x/auth/genesis.go:27-30 | with distinct addresses, the i-th admitted account is stored under its address with number C + i and every other field unchanged |
| Genesis.AdmitNumbersInRange | x/auth/genesis.go:27-30 | every account the import writes has a number in C .. C+K-1, whatever number the document declared |
| Genesis.SortByAccountNumber | x/auth/genesis.go:24-26 | the array ends sorted by declared account number (non-decreasing) and is a permutation of its old contents; no stability |
| Genesis.InsertIntoSorted | x/auth/genesis.go:24-26 | one sorting step: a sorted prefix grows by one element, as a permutation of the array |
| Genesis.InitGenesis | x/auth/genesis.go:15-31 | params equal the document's; accounts are admitted in an order sorted by declared number that permutes the document; the counter ends at C+K; the store equals `Admit` of the old store over that order from C; an empty account list leaves the store unchanged |
| Genesis.ExportGenesis | x/auth/genesis.go:34-47 | changes nothing; succeeds exactly when every stored account is a genesis account; the document then holds the stored params and every stored account once, in iteration order; the failure names a stored non-genesis account; every exported document holds only genesis accounts |
| RoundTrip.ImportRestoresAccounts | x/auth/genesis_test.go:41-43 | importing any reordering of an export into an empty store from counter C restores exactly the exported addresses, each with its account unchanged except for a number in C .. C+K-1 |
| RoundTrip.ImportRestoresNumbers | x/auth/genesis_test.go:69-71 | when the source numbers are exactly C .. C+K-1, the sorted import from counter C rebuilds the source store, numbers included |
| RoundTrip.PopulatedStoreNumbering | x/auth/genesis_test.go:34-37 | a store filled from empty by `NewAccount` + `SetAccount` from counter C, with distinct addresses, is numbered exactly C .. C+K-1 |
| RoundTrip.ExportImportIdentical | x/auth/genesis_test.go:34-71 | the test scenario: populate, export in any iteration order, sort and import from the same counter; the two stores are equal |
| RoundTrip.ExportImport | x/auth/genesis_test.go:41-74 | export then import into a new keeper object succeeds exactly when every account is a genesis account; params are equal; the counter ends at C+K; the addresses and accounts match except for numbers, and match fully when the source is numbered from C |

## Left out

- Type registry (`x/auth/types/codec.go`): the Amino registration of concrete types and of external account types is not modelled. A registered external type is represented only by the `Custom` variant with its tag and whether it is a genesis account.
- `ValidateGenesis`, the vesting-account constructors and the vesting unlock arithmetic are not part of this model. Their code is not among the modelled files, so no validation predicate is stated.
- Coins and params are only stored, copied and compared by equality; none of their fields is read. The field names of `Params` follow the module's parameter set and are not taken from the modelled files. Coin normalisation and arithmetic come from an external library.
- Integer widths: the counter, account numbers and sequence numbers are 64-bit unsigned in the source but unbounded here, so wrap-around at 2^64 is not modelled. The numbering C .. C+K-1 and the final counter C+K hold only while nothing wraps.
- Accounts.GenesisState: the document's account list may hold non-genesis accounts, which the source's document type rules out. `Accounts.DocumentOfGenesisAccounts` states the restriction, and `ExportGenesis` ensures it. `InitGenesis` does not require it, because its behaviour does not depend on account kinds.
- Store persistence, key encoding, contexts and the app and ABCI wiring of the test are not modelled. The keeper is an in-memory map plus a counter.
- `NewAccount`, `SetAccount`, `GetParams`, `SetParams` and `IterateAccounts`: the keeper code is not part of this model. Their bodies are the least code that meets the behaviour the genesis code relies on.
- Keeper.AccountKeeper.IterateAccounts: the real store iterates in key order; the model leaves the order open. The iterator's visitor callback and early-stop flag are not modelled: `ExportGenesis`'s visitor always continues, so its loop walks the whole list.
- Genesis.InitGenesis: the Go code sorts the document's own slice, which the caller can observe. It also renumbers the document's account objects through shared pointers. The model sorts a fresh array copy and treats accounts as values, so neither effect on the caller's document is captured.
- Genesis.ExportGenesis: a Go panic is modelled as a `Failure` result naming the first non-genesis account met. Which one is met depends on the iteration order, which is left open.
- Genesis.SortByAccountNumber: `sort.Slice`'s own algorithm is not reproduced. An insertion sort stands in for it, and only what `sort.Slice` promises (sorted, a permutation) is stated.
- The base vesting account as a stand-alone variant is not modelled. Its fields appear only inside the continuous and delayed variants.
