/**
 The account keeper as the genesis code sees it: an in-memory store of
 accounts keyed by address, the counter that hands out account numbers, and
 the parameter record. Persistence, key encoding and contexts are not modelled.
 */
module Keeper {
  import opened Accounts

  /** Every stored account sits under its own address. */
  ghost predicate KeyedByAddress(m: map<Address, Account>)
  {
    forall a :: a in m ==> m[a].address == a
  }

  /** `s` lists every account of `m` exactly once, in some order. */
  ghost predicate Enumerates(s: seq<Account>, m: map<Address, Account>)
  {
    && DistinctAddresses(s)
    && (forall i :: 0 <= i < |s| ==> s[i].address in m && m[s[i].address] == s[i])
    && Addresses(s) == m.Keys
  }

  /** A listing of a store has one entry per stored account. */
  lemma {:induction false} EnumerationLength(s: seq<Account>, m: map<Address, Account>)
    requires Enumerates(s, m)
    ensures |s| == |m|
  {
    AddressCount(s);
  }

  class AccountKeeper {
    var accounts: map<Address, Account>
    var nextNumber: nat
    var params: Params

    ghost predicate Valid()
      reads this
    {
      KeyedByAddress(accounts)
    }

    /** A keeper over an empty store whose counter stands at `counter`. */
    constructor (counter: nat, p: Params)
      ensures Valid()
      ensures accounts == map[] && nextNumber == counter && params == p
    {
      accounts := map[];
      nextNumber := counter;
      params := p;
    }

    method GetParams() returns (p: Params)
      ensures p == params
    {
      p := params;
    }

    method SetParams(p: Params)
      modifies this`params
      ensures params == p
    {
      params := p;
    }

    /**
     Allocates identity: returns the account with the counter's current value
     as its number, whatever number it carried, and advances the counter. The
     store itself is not written.
     */
    method NewAccount(acc: Account) returns (r: Account)
      modifies this`nextNumber
      ensures r == WithNumber(acc, old(nextNumber))
      ensures nextNumber == old(nextNumber) + 1
    {
      r := WithNumber(acc, nextNumber);
      nextNumber := nextNumber + 1;
    }

    /** Upserts the account under its address; no check on numbers or duplicates. */
    method SetAccount(acc: Account)
      requires Valid()
      modifies this`accounts
      ensures Valid()
      ensures accounts == old(accounts)[acc.address := acc]
    {
      accounts := accounts[acc.address := acc];
    }

    /**
     The sequence of accounts a full pass of the store's iterator visits: each
     stored account exactly once. The order is left open (the choice of the
     next key is arbitrary), so nothing may depend on it.
     */
    method IterateAccounts() returns (visits: seq<Account>)
      requires Valid()
      ensures Enumerates(visits, accounts)
    {
      visits := [];
      var rest := accounts.Keys;
      while rest != {}
        invariant rest <= accounts.Keys
        invariant DistinctAddresses(visits)
        invariant forall i :: 0 <= i < |visits| ==>
                    visits[i].address in accounts && accounts[visits[i].address] == visits[i]
        invariant Addresses(visits) == accounts.Keys - rest
        decreases rest
      {
        var a :| a in rest;
        AddressesOfPrefix(visits + [accounts[a]]);
        assert (visits + [accounts[a]])[..|visits|] == visits;
        visits := visits + [accounts[a]];
        rest := rest - {a};
      }
    }
  }
}
