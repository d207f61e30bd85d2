/**
 The genesis coordinator of the auth module: import of a genesis document into
 the account keeper (InitGenesis) and export of the keeper's state into a new
 document (ExportGenesis).
 */
module Genesis {
  import opened Accounts
  import opened Keeper

  datatype Result<T, E> = Success(value: T) | Failure(error: E)

  /** Why an export is aborted (a panic in the source). */
  datatype ExportError = NonExportableAccount(address: Address)

  /**
   The store after admitting the accounts of `s` in order, numbering them from
   `c`: the k-th admitted account gets number c + k and is upserted under its
   address. This is the effect of the import loop's NewAccount and SetAccount calls.
   */
  ghost function Admit(m: map<Address, Account>, s: seq<Account>, c: nat): (r: map<Address, Account>)
    ensures r.Keys == m.Keys + Addresses(s)
    ensures KeyedByAddress(m) ==> KeyedByAddress(r)
    decreases |s|
  {
    if s == [] then m
    else
      var k := |s| - 1;
      AddressesOfPrefix(s);
      Admit(m, s[..k], c)[s[k].address := WithNumber(s[k], c + k)]
  }

  /** Admitting one more account of `s` upserts it with the next number. */
  lemma {:induction false} AdmitStep(m: map<Address, Account>, s: seq<Account>, c: nat, i: nat)
    requires i < |s|
    ensures Admit(m, s[..i + 1], c) == Admit(m, s[..i], c)[s[i].address := WithNumber(s[i], c + i)]
  {
    assert s[..i + 1][..i] == s[..i];
  }

  /** Addresses that no admitted account carries keep their old entry, or stay absent. */
  lemma {:induction false} AdmitUntouched(m: map<Address, Account>, s: seq<Account>, c: nat, a: Address)
    requires a !in Addresses(s)
    ensures a in Admit(m, s, c) <==> a in m
    ensures a in m ==> Admit(m, s, c)[a] == m[a]
  {
    if s != [] {
      var k := |s| - 1;
      AddressesOfPrefix(s);
      AdmitUntouched(m, s[..k], c, a);
    }
  }

  /**
   The last account in `s` with a given address is what the store holds under
   that address, with number c + i where i is its position: equal addresses
   overwrite, later wins, and numbers follow the processing order.
   */
  lemma {:induction false} AdmitLast(m: map<Address, Account>, s: seq<Account>, c: nat, i: nat)
    requires i < |s|
    requires forall j :: i < j < |s| ==> s[j].address != s[i].address
    ensures s[i].address in Admit(m, s, c)
    ensures Admit(m, s, c)[s[i].address] == WithNumber(s[i], c + i)
  {
    var k := |s| - 1;
    if i < k {
      assert s[..k][i] == s[i];
      AdmitLast(m, s[..k], c, i);
    }
  }

  /** With distinct addresses, the i-th admitted account is stored with number c + i. */
  lemma {:induction false} AdmitDistinct(m: map<Address, Account>, s: seq<Account>, c: nat)
    requires DistinctAddresses(s)
    ensures forall i :: 0 <= i < |s| ==>
              s[i].address in Admit(m, s, c) && Admit(m, s, c)[s[i].address] == WithNumber(s[i], c + i)
  {
    forall i | 0 <= i < |s|
      ensures s[i].address in Admit(m, s, c) && Admit(m, s, c)[s[i].address] == WithNumber(s[i], c + i)
    {
      AdmitLast(m, s, c, i);
    }
  }

  /**
   Every account the import writes carries a number in [c, c + |s|), whatever
   number the document declared for it.
   */
  lemma {:induction false} AdmitNumbersInRange(m: map<Address, Account>, s: seq<Account>, c: nat, a: Address)
    requires a in Addresses(s)
    ensures a in Admit(m, s, c)
    ensures c <= Admit(m, s, c)[a].accountNumber < c + |s|
  {
    var k := |s| - 1;
    if s[k].address == a {
      AdmitLast(m, s, c, k);
    } else {
      AddressesOfPrefix(s);
      AdmitNumbersInRange(m, s[..k], c, a);
    }
  }

  /**
   Sorts the accounts in place by declared account number. Any order of
   accounts with equal numbers may result: only sortedness and the
   permutation are promised.
   */
  method SortByAccountNumber(a: array<Account>)
    modifies a
    ensures SortedByNumber(a[..])
    ensures multiset(a[..]) == multiset(old(a[..]))
  {
    var i := 0;
    while i < a.Length
      invariant 0 <= i <= a.Length
      invariant SortedByNumber(a[..i])
      invariant multiset(a[..]) == multiset(old(a[..]))
    {
      InsertIntoSorted(a, i);
      i := i + 1;
    }
    assert a[..a.Length] == a[..];
  }

  /** Moves a[i] down into the sorted prefix a[..i], leaving a[..i + 1] sorted. */
  method InsertIntoSorted(a: array<Account>, i: int)
    requires 0 <= i < a.Length
    requires SortedByNumber(a[..i])
    modifies a
    ensures SortedByNumber(a[..i + 1])
    ensures multiset(a[..]) == multiset(old(a[..]))
  {
    var j := i;
    while j > 0 && a[j - 1].accountNumber > a[j].accountNumber
      invariant 0 <= j <= i
      invariant forall p, q :: 0 <= p < q <= i && p != j && q != j ==> a[p].accountNumber <= a[q].accountNumber
      invariant forall q :: j < q <= i ==> a[j].accountNumber < a[q].accountNumber
      invariant multiset(a[..]) == multiset(old(a[..]))
    {
      SwapDown(a, j);
      j := j - 1;
    }
  }

  /** Exchanges a[j - 1] and a[j]. */
  method SwapDown(a: array<Account>, j: int)
    requires 0 < j < a.Length
    modifies a
    ensures a[j - 1] == old(a[j]) && a[j] == old(a[j - 1])
    ensures forall k :: 0 <= k < a.Length && k != j - 1 && k != j ==> a[k] == old(a[k])
    ensures multiset(a[..]) == multiset(old(a[..]))
  {
    a[j - 1], a[j] := a[j], a[j - 1];
  }

  /**
   Imports a genesis document: writes the parameters, sorts the accounts by
   declared number, then for each in that order takes a fresh number from the
   counter and upserts it by address. `order` is the sorted list the loop walked.
   */
  method InitGenesis(ak: AccountKeeper, data: GenesisState) returns (ghost order: seq<Account>)
    requires ak.Valid()
    modifies ak
    ensures ak.Valid()
    ensures ak.params == data.params
    ensures SortedByNumber(order) && multiset(order) == multiset(data.accounts)
    ensures ak.nextNumber == old(ak.nextNumber) + |data.accounts|
    ensures ak.accounts == Admit(old(ak.accounts), order, old(ak.nextNumber))
    ensures data.accounts == [] ==> ak.accounts == old(ak.accounts)
  {
    ak.SetParams(data.params);

    var docs := ToArray(data.accounts);
    SortByAccountNumber(docs);
    order := docs[..];
    assert |order| == |data.accounts| by {
      assert |multiset(order)| == |multiset(data.accounts)|;
    }

    ghost var m0, c0 := ak.accounts, ak.nextNumber;
    var i := 0;
    while i < docs.Length
      invariant 0 <= i <= docs.Length
      invariant ak.Valid() && ak.params == data.params
      invariant ak.nextNumber == c0 + i
      invariant docs[..] == order
      invariant ak.accounts == Admit(m0, order[..i], c0)
    {
      assert docs[i] == order[i];
      var acc := ak.NewAccount(docs[i]);
      ak.SetAccount(acc);
      assert ak.accounts == Admit(m0, order[..i], c0)[order[i].address := WithNumber(order[i], c0 + i)];
      AdmitStep(m0, order, c0, i);
      i := i + 1;
    }
    assert order[..docs.Length] == order;
  }

  /** A fresh array holding the document's accounts, for the in-place sort. */
  method ToArray(s: seq<Account>) returns (a: array<Account>)
    ensures fresh(a) && a[..] == s
  {
    a := new Account[|s|](k requires 0 <= k < |s| => s[k]);
  }

  /**
   Exports the keeper's state: its parameters and every stored account, in the
   order the iterator visits them, with no sorting. The visitor never asks to
   stop, so the whole store is walked unless an account is not a genesis
   account, which aborts the export. Nothing in the keeper changes.
   `order` is the iterator's visiting order.
   */
  method ExportGenesis(ak: AccountKeeper) returns (r: Result<GenesisState, ExportError>, ghost order: seq<Account>)
    requires ak.Valid()
    ensures Enumerates(order, ak.accounts)
    ensures r.Success? <==> forall a :: a in ak.accounts ==> IsGenesisAccount(ak.accounts[a])
    ensures r.Success? ==> r.value == GenesisState(ak.params, order)
    ensures r.Success? ==> DocumentOfGenesisAccounts(r.value)
    ensures r.Failure? ==> r.error.address in ak.accounts && !IsGenesisAccount(ak.accounts[r.error.address])
  {
    var params := ak.GetParams();
    var visits := ak.IterateAccounts();
    order := visits;

    var accounts: seq<Account> := [];
    var i := 0;
    while i < |visits|
      invariant 0 <= i <= |visits|
      invariant accounts == visits[..i]
      invariant forall k :: 0 <= k < i ==> IsGenesisAccount(visits[k])
    {
      var acc := visits[i];
      if !IsGenesisAccount(acc) {
        r := Failure(NonExportableAccount(acc.address));
        return;
      }
      accounts := accounts + [acc];
      i := i + 1;
    }
    assert visits[..i] == visits;
    forall a | a in ak.accounts ensures IsGenesisAccount(ak.accounts[a]) {
      assert a in Addresses(visits);
    }
    r := Success(GenesisState(params, accounts));
  }
}
