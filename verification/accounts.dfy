/**
 The account entities of the auth module and the genesis document that carries them.
 Coins and parameters are opaque values here: they are only stored, copied and
 compared by equality, never computed with.
 */
module Accounts {

  /** An account address: a byte string (20 bytes on the chain; the length is not checked here). */
  type Address = seq<bv8>

  /** A coin set, denomination to amount. Never inspected by the genesis code. */
  type Coins = map<string, nat>

  /** The fields a vesting account adds to a base account (the embedded BaseVestingAccount). */
  datatype Vesting = Vesting(
    originalVesting: Coins,
    delegatedFree: Coins,
    delegatedVesting: Coins,
    endTime: int)

  /**
   The concrete account variants. Their wire tags are "cosmos-sdk/Account",
   "cosmos-sdk/ContinuousVestingAccount" and "cosmos-sdk/DelayedVestingAccount";
   Custom stands for a variant another module registers, which may or may not
   implement the genesis-account interface.
   */
  datatype Kind =
    | Base
    | ContinuousVesting(vesting: Vesting, startTime: int)
    | DelayedVesting(vesting: Vesting)
    | Custom(tag: string, exportable: bool)

  datatype Account = Account(
    address: Address,
    coins: Coins,
    sequence: nat,
    accountNumber: nat,
    kind: Kind)

  /**
   The auth module's parameter record. The genesis code only stores it and
   hands it back, so its fields (named after the module's parameter set) are
   never read here.
   */
  datatype Params = Params(
    maxMemoCharacters: nat,
    txSigLimit: nat,
    txSizeCostPerByte: nat,
    sigVerifyCostEd25519: nat,
    sigVerifyCostSecp256k1: nat)

  /**
   A genesis document: the parameters and an ordered list of accounts. The
   list may hold accounts of any kind, non-genesis ones included; the source's
   document type admits only genesis accounts (see DocumentOfGenesisAccounts),
   and ExportGenesis only ever produces such documents.
   */
  datatype GenesisState = GenesisState(params: Params, accounts: seq<Account>)

  /**
   Whether an account can be converted to a genesis account (the type
   assertion of the export): the base account and both vesting variants can,
   a variant registered elsewhere can exactly when it implements the interface.
   */
  predicate IsGenesisAccount(acc: Account): (b: bool)
    ensures acc.kind.Base? ==> b
    ensures acc.kind.ContinuousVesting? || acc.kind.DelayedVesting? ==> b
    ensures acc.kind.Custom? ==> (b <==> acc.kind.exportable)
  {
    match acc.kind
    case Custom(_, exportable) => exportable
    case _ => true
  }

  /** Every account of the document is a genesis account, as the source's document type demands. */
  predicate DocumentOfGenesisAccounts(doc: GenesisState)
  {
    forall i :: 0 <= i < |doc.accounts| ==> IsGenesisAccount(doc.accounts[i])
  }

  /** The account with its number replaced, every other field kept. */
  function WithNumber(acc: Account, n: nat): (r: Account)
    ensures r.accountNumber == n
    ensures r.address == acc.address && r.coins == acc.coins
    ensures r.sequence == acc.sequence && r.kind == acc.kind
  {
    acc.(accountNumber := n)
  }

  /** Non-decreasing declared account numbers: the order the import processes accounts in. */
  ghost predicate SortedByNumber(s: seq<Account>)
  {
    forall i, j :: 0 <= i < j < |s| ==> s[i].accountNumber <= s[j].accountNumber
  }

  /** The set of addresses that occur in a list of accounts. */
  ghost function Addresses(s: seq<Account>): set<Address>
  {
    set i | 0 <= i < |s| :: s[i].address
  }

  /** No address occurs twice in the list. */
  ghost predicate DistinctAddresses(s: seq<Account>)
  {
    forall i, j :: 0 <= i < j < |s| ==> s[i].address != s[j].address
  }

  /** The addresses of a list are those of its prefix plus the last one. */
  lemma {:induction false} AddressesOfPrefix(s: seq<Account>)
    requires s != []
    ensures Addresses(s) == Addresses(s[..|s| - 1]) + {s[|s| - 1].address}
  {
  }

  /** A list has distinct addresses when its prefix does and its last address is new. */
  lemma {:induction false} DistinctOfPrefix(s: seq<Account>)
    requires s != []
    ensures DistinctAddresses(s) <==>
              DistinctAddresses(s[..|s| - 1]) && s[|s| - 1].address !in Addresses(s[..|s| - 1])
  {
  }

  /**
   A list has at most as many addresses as entries, and exactly as many
   precisely when no address repeats.
   */
  lemma {:induction false} AddressCount(s: seq<Account>)
    ensures |Addresses(s)| <= |s|
    ensures |Addresses(s)| == |s| <==> DistinctAddresses(s)
  {
    if s == [] {
      assert Addresses(s) == {};
    } else {
      var p := s[..|s| - 1];
      AddressesOfPrefix(s);
      DistinctOfPrefix(s);
      AddressCount(p);
    }
  }
}
