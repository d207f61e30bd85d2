/**
 What an export followed by an import into a fresh keeper preserves: the
 parameters, every account up to its number, and the numbers too when the
 source numbers are exactly the ones the fresh counter hands out.
 */
module RoundTrip {
  import opened Accounts
  import opened Keeper
  import opened Genesis

  /** The stored numbers are pairwise distinct and fill [c, c + |m|) exactly. */
  ghost predicate NumberedFrom(m: map<Address, Account>, c: nat)
  {
    && (forall a :: a in m ==> c <= m[a].accountNumber < c + |m|)
    && (forall a, b :: a in m && b in m && a != b ==> m[a].accountNumber != m[b].accountNumber)
  }

  /** Reordering a listing of a store gives another listing of it. */
  lemma {:induction false} PermutationEnumerates(m: map<Address, Account>, order: seq<Account>, sorted: seq<Account>)
    requires Enumerates(order, m)
    requires multiset(sorted) == multiset(order)
    ensures Enumerates(sorted, m)
  {
    assert |sorted| == |order| by {
      assert |multiset(sorted)| == |multiset(order)|;
    }
    forall i | 0 <= i < |sorted|
      ensures sorted[i].address in m && m[sorted[i].address] == sorted[i]
    {
      assert sorted[i] in multiset(sorted);
      var p :| 0 <= p < |order| && order[p] == sorted[i];
    }
    forall a | a in m ensures a in Addresses(sorted) {
      var p :| 0 <= p < |order| && order[p].address == a;
      assert order[p] in multiset(order);
      var i :| 0 <= i < |sorted| && sorted[i] == order[p];
    }
    assert Addresses(sorted) == m.Keys;
    AddressCount(order);
    AddressCount(sorted);
    assert |Addresses(sorted)| == |sorted|;
  }

  /** In a strictly increasing list of numbers drawn from [c, c + |s|), position i holds c + i. */
  lemma {:induction false} RankAbove(s: seq<Account>, c: nat, i: nat)
    requires forall p, q :: 0 <= p < q < |s| ==> s[p].accountNumber < s[q].accountNumber
    requires forall p :: 0 <= p < |s| ==> c <= s[p].accountNumber
    requires i < |s|
    ensures c + i <= s[i].accountNumber
  {
    if i > 0 {
      RankAbove(s, c, i - 1);
    }
  }

  lemma {:induction false} RankBelow(s: seq<Account>, c: nat, i: nat)
    requires forall p, q :: 0 <= p < q < |s| ==> s[p].accountNumber < s[q].accountNumber
    requires forall p :: 0 <= p < |s| ==> s[p].accountNumber < c + |s|
    requires i < |s|
    ensures s[i].accountNumber <= c + i
    decreases |s| - i
  {
    if i < |s| - 1 {
      RankBelow(s, c, i + 1);
    }
  }

  /**
   Importing any reordering of a listing of `m` into an empty store from
   counter c stores exactly m's addresses, each with m's account except for
   the number, which lies in [c, c + |m|).
   */
  lemma {:induction false} ImportRestoresAccounts(m: map<Address, Account>, order: seq<Account>, sorted: seq<Account>, c: nat)
    requires Enumerates(order, m)
    requires multiset(sorted) == multiset(order)
    ensures Admit(map[], sorted, c).Keys == m.Keys
    ensures forall a :: a in m ==>
              var n := Admit(map[], sorted, c)[a].accountNumber;
              c <= n < c + |m| && Admit(map[], sorted, c)[a] == WithNumber(m[a], n)
  {
    PermutationEnumerates(m, order, sorted);
    AdmitListing(m, sorted, c);
  }

  /** Admitting a listing of `m` from c stores m's accounts, renumbered within [c, c + |m|). */
  lemma {:induction false} AdmitListing(m: map<Address, Account>, sorted: seq<Account>, c: nat)
    requires Enumerates(sorted, m)
    ensures Admit(map[], sorted, c).Keys == m.Keys
    ensures forall a :: a in m ==>
              var n := Admit(map[], sorted, c)[a].accountNumber;
              c <= n < c + |m| && Admit(map[], sorted, c)[a] == WithNumber(m[a], n)
  {
    EnumerationLength(sorted, m);
    var r := Admit(map[], sorted, c);
    assert r.Keys == m.Keys;
    forall a | a in m
      ensures c <= r[a].accountNumber < c + |m| && r[a] == WithNumber(m[a], r[a].accountNumber)
    {
      var i :| 0 <= i < |sorted| && sorted[i].address == a;
      AdmitListingAt(m, sorted, c, i);
    }
  }

  /** The i-th account of a listing is stored with number c + i and otherwise as in the store. */
  lemma {:induction false} AdmitListingAt(m: map<Address, Account>, sorted: seq<Account>, c: nat, i: nat)
    requires Enumerates(sorted, m)
    requires i < |sorted|
    ensures sorted[i].address in Admit(map[], sorted, c)
    ensures Admit(map[], sorted, c)[sorted[i].address] == WithNumber(m[sorted[i].address], c + i)
  {
    AdmitLast(map[], sorted, c, i);
  }

  /**
   When the source numbers are exactly c, c + 1, ..., the import of a sorted
   reordering of a listing of `m` from counter c gives back `m` itself,
   numbers included.
   */
  lemma {:induction false} ImportRestoresNumbers(m: map<Address, Account>, order: seq<Account>, sorted: seq<Account>, c: nat)
    requires Enumerates(order, m)
    requires multiset(sorted) == multiset(order)
    requires SortedByNumber(sorted)
    requires NumberedFrom(m, c)
    ensures Admit(map[], sorted, c) == m
  {
    PermutationEnumerates(m, order, sorted);
    ListingRanks(m, sorted, c);
    AdmitRankedListing(m, sorted, c);
  }

  /** Admitting a listing whose i-th account already carries number c + i rebuilds the store. */
  lemma {:induction false} AdmitRankedListing(m: map<Address, Account>, sorted: seq<Account>, c: nat)
    requires Enumerates(sorted, m)
    requires forall i :: 0 <= i < |sorted| ==> sorted[i].accountNumber == c + i
    ensures Admit(map[], sorted, c) == m
  {
    var r := Admit(map[], sorted, c);
    assert r.Keys == m.Keys;
    forall a | a in m ensures r[a] == m[a] {
      var i :| 0 <= i < |sorted| && sorted[i].address == a;
      AdmitLast(map[], sorted, c, i);
      assert WithNumber(sorted[i], c + i) == sorted[i];
    }
    SameEntries(r, m);
  }

  lemma {:induction false} SameEntries(r: map<Address, Account>, m: map<Address, Account>)
    requires r.Keys == m.Keys
    requires forall a :: a in m ==> r[a] == m[a]
    ensures r == m
  {
  }

  /** A sorted listing of a store numbered exactly from c holds number c + i at position i. */
  lemma {:induction false} ListingRanks(m: map<Address, Account>, sorted: seq<Account>, c: nat)
    requires Enumerates(sorted, m)
    requires SortedByNumber(sorted)
    requires NumberedFrom(m, c)
    ensures forall i :: 0 <= i < |sorted| ==> sorted[i].accountNumber == c + i
  {
    EnumerationLength(sorted, m);
    forall p, q | 0 <= p < q < |sorted|
      ensures sorted[p].accountNumber < sorted[q].accountNumber
    {
      assert sorted[p].address != sorted[q].address;
      assert m[sorted[p].address] == sorted[p] && m[sorted[q].address] == sorted[q];
    }
    forall p | 0 <= p < |sorted|
      ensures c <= sorted[p].accountNumber < c + |sorted|
    {
      assert m[sorted[p].address] == sorted[p];
    }
    forall i | 0 <= i < |sorted| ensures sorted[i].accountNumber == c + i {
      RankAbove(sorted, c, i);
      RankBelow(sorted, c, i);
    }
  }

  /**
   A store filled from empty by NewAccount and SetAccount from counter c,
   with distinct addresses, is keyed by address and numbered exactly from c.
   */
  lemma {:induction false} PopulatedStoreNumbering(s: seq<Account>, c: nat)
    requires DistinctAddresses(s)
    ensures KeyedByAddress(Admit(map[], s, c))
    ensures NumberedFrom(Admit(map[], s, c), c)
  {
    var m := Admit(map[], s, c);
    AdmitDistinct(map[], s, c);
    AddressCount(s);
    assert |m| == |s| by { assert m.Keys == Addresses(s); }
    forall a | a in m ensures c <= m[a].accountNumber < c + |m| {
      var i :| 0 <= i < |s| && s[i].address == a;
      assert m[a] == WithNumber(s[i], c + i);
    }
    forall a, b | a in m && b in m && a != b ensures m[a].accountNumber != m[b].accountNumber {
      var i :| 0 <= i < |s| && s[i].address == a;
      var j :| 0 <= j < |s| && s[j].address == b;
      assert m[a] == WithNumber(s[i], c + i) && m[b] == WithNumber(s[j], c + j);
    }
  }

  /**
   The scenario of the export/import test: populate an empty store from
   counter c with accounts of distinct addresses, export it in whatever
   order the iterator yields, sort it and import it into an empty store whose
   counter is also c; the two stores are equal.
   */
  lemma {:induction false} ExportImportIdentical(s: seq<Account>, c: nat, order: seq<Account>, sorted: seq<Account>)
    requires DistinctAddresses(s)
    requires Enumerates(order, Admit(map[], s, c))
    requires multiset(sorted) == multiset(order) && SortedByNumber(sorted)
    ensures Admit(map[], sorted, c) == Admit(map[], s, c)
  {
    PopulatedStoreNumbering(s, c);
    ImportRestoresNumbers(Admit(map[], s, c), order, sorted, c);
  }

  /**
   Exports `source` and imports the document into a fresh keeper whose
   counter stands at c. The source is not changed; the import succeeds exactly
   when every stored account is a genesis account.
   */
  method ExportImport(source: AccountKeeper, c: nat, p0: Params) returns (r: Result<AccountKeeper, ExportError>)
    requires source.Valid()
    ensures r.Success? ==> fresh(r.value)
    ensures r.Success? <==> forall a :: a in source.accounts ==> IsGenesisAccount(source.accounts[a])
    ensures r.Success? ==> r.value.params == source.params
    ensures r.Success? ==> r.value.nextNumber == c + |source.accounts|
    ensures r.Success? ==> r.value.accounts.Keys == source.accounts.Keys
    ensures r.Success? ==> forall a :: a in source.accounts ==>
              r.value.accounts[a] == WithNumber(source.accounts[a], r.value.accounts[a].accountNumber)
    ensures r.Success? && NumberedFrom(source.accounts, c) ==> r.value.accounts == source.accounts
  {
    var exported, order := ExportGenesis(source);
    match exported
    case Failure(e) =>
      r := Failure(e);
    case Success(doc) =>
      var imported := new AccountKeeper(c, p0);
      var sorted := InitGenesis(imported, doc);
      EnumerationLength(order, source.accounts);
      ImportRestoresAccounts(source.accounts, order, sorted, c);
      if NumberedFrom(source.accounts, c) {
        ImportRestoresNumbers(source.accounts, order, sorted, c);
      }
      r := Success(imported);
  }
}
