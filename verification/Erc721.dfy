/**
 The ERC-721 holder table and the supply counters. A refresh asks the chain for the owner of one token
 and inserts, updates or deletes the token's row; the row id is a hash of contract, owner and token id.
 */
module Erc721 {

  datatype Holder = Holder(contract: string, holder: string, tokenId: string)

  /** What the owner query answers: an error, "" for a burned token, or the owner. */
  datatype Answer = Failed | Owner(address: string)

  type Hash = string -> string

  ghost predicate Injective(hash: Hash) {
    forall a, b :: hash(a) == hash(b) ==> a == b
  }

  /** The id hashes the three texts run together. With addresses of one length that loses nothing. */
  lemma ConcatenationIsInjective(c: string, o: string, t: string, c': string, o': string, t': string)
    requires |c| == |c'| && |o| == |o'|
    ensures c + o + t == c' + o' + t' <==> c == c' && o == o' && t == t'
  {
    var s, s' := c + o + t, c' + o' + t';
    assert s[..|c|] == c && s[|c|..|c| + |o|] == o && s[|c| + |o|..] == t;
    assert s'[..|c'|] == c' && s'[|c'|..|c'| + |o'|] == o' && s'[|c'| + |o'|..] == t';
  }

  /** The row id: the hash of the three texts run together. */
  function RowId(hash: Hash, r: Holder): string {
    hash(r.contract + r.holder + r.tokenId)
  }

  /** Contract and holder are addresses, which have one length. */
  predicate HasAddresses(r: Holder, len: nat) {
    |r.contract| == len && |r.holder| == len
  }

  /** Two rows with addresses have the same id exactly if they are the same. */
  lemma IdsCollideIff(hash: Hash, r: Holder, q: Holder, len: nat)
    requires Injective(hash) && HasAddresses(r, len) && HasAddresses(q, len)
    ensures RowId(hash, r) == RowId(hash, q) <==> r == q
  {
    ConcatenationIsInjective(r.contract, r.holder, r.tokenId, q.contract, q.holder, q.tokenId);
  }

  /** Without that, even a perfect hash gives two rows one id. */
  lemma IdsCollideWithoutLengths(hash: Hash)
    ensures RowId(hash, Holder("a", "b", "")) == RowId(hash, Holder("", "a", "b"))
  {
    assert "a" + "b" + "" == "" + "a" + "b";
  }

  function RowsOf(holders: map<string, Holder>, contract: string): set<string> {
    set id | id in holders && holders[id].contract == contract
  }

  function TokenRows(holders: map<string, Holder>, contract: string, tokenId: string): set<string> {
    set id | id in holders && holders[id].contract == contract && holders[id].tokenId == tokenId
  }

  type Owners = map<(string, string), string>

  /** Every row is filed under its hash, has addresses and names the reported owner of its token. */
  ghost predicate RowsHaveOwners(holders: map<string, Holder>, owners: Owners, hash: Hash, len: nat) {
    forall id :: id in holders ==>
      var r := holders[id];
      && id == RowId(hash, r) && HasAddresses(r, len)
      && (r.contract, r.tokenId) in owners && owners[(r.contract, r.tokenId)] == r.holder
  }

  ghost predicate OwnersHaveRows(holders: map<string, Holder>, owners: Owners, hash: Hash) {
    forall k :: k in owners ==>
      var r := Holder(k.0, owners[k], k.1);
      RowId(hash, r) in holders && holders[RowId(hash, r)] == r
  }

  /** The rows are exactly the reported owners. */
  ghost predicate Consistent(holders: map<string, Holder>, owners: Owners, hash: Hash, len: nat) {
    RowsHaveOwners(holders, owners, hash, len) && OwnersHaveRows(holders, owners, hash)
  }

  /** Supply moved exactly with the number of rows, contract by contract. */
  ghost predicate SameSurplus(h: map<string, Holder>, s: map<string, int>,
                              h': map<string, Holder>, s': map<string, int>) {
    && s.Keys == s'.Keys
    && forall c :: c in s ==> s'[c] - |RowsOf(h', c)| == s[c] - |RowsOf(h, c)|
  }

  class Store {
    /** The length of an address. */
    const addressLength: nat
    /** Holder rows by primary key. */
    var holders: map<string, Holder>
    /** total_supply of the token rows, by contract. */
    var supply: map<string, int>
    /** The owner that the last successful refresh of each token reported; burned tokens are absent. */
    ghost var owners: Owners

    ghost predicate Valid(hash: Hash)
      reads this
    {
      Consistent(holders, owners, hash, addressLength)
    }

    /** No holders yet. */
    constructor (addressLength: nat, supply: map<string, int>, ghost hash: Hash)
      ensures Valid(hash) && holders == map[] && this.supply == supply && this.addressLength == addressLength
    {
      this.addressLength := addressLength;
      this.holders, this.supply, this.owners := map[], supply, map[];
    }

    method AddSupply(contract: string, n: int)
      modifies this`supply
      ensures supply == if contract in old(supply) then old(supply)[contract := old(supply)[contract] + n]
                        else old(supply)
    {
      if contract in supply {
        supply := supply[contract := supply[contract] + n];
      }
    }

    /**
     After a successful answer the token's row names the reported owner, or is gone if the token is
     burned; everything else stays, and total_supply moves exactly with the number of rows. The chain
     answers with an address or with nothing.
     */
    method RefreshErc721Holders(contract: string, tokenId: string, answer: Answer, hash: Hash) returns (ok: bool)
      requires Valid(hash) && Injective(hash) && |contract| == addressLength
      requires answer.Owner? && answer.address != "" ==> |answer.address| == addressLength
      modifies this
      ensures Valid(hash)
      ensures ok <==> tokenId == "" || answer.Owner?
      ensures owners == if tokenId == "" || answer.Failed? then old(owners)
                        else if answer.address == "" then old(owners) - {(contract, tokenId)}
                        else old(owners)[(contract, tokenId) := answer.address]
      ensures SameSurplus(old(holders), old(supply), holders, supply)
      ensures var had, has := (contract, tokenId) in old(owners), (contract, tokenId) in owners;
              supply == if contract !in old(supply) || had == has then old(supply)
                        else old(supply)[contract := old(supply)[contract] + if has then 1 else -1]
    {
      if tokenId == "" {
        return true;
      }
      if answer.Failed? {
        return false;
      }
      ok := true;
      var to := answer.address;
      var mine := TokenRows(holders, contract, tokenId);
      if to == "" {
        Burn(contract, tokenId, mine, hash);
        return;
      }
      var id := RowId(hash, Holder(contract, to, tokenId));
      if mine == {} {
        Insert(contract, tokenId, to, id, hash);
      } else {
        Update(contract, tokenId, to, id, mine, hash);
      }
    }

    /** "delete where contract and token_id match", counting the supply down if a row was deleted. */
    method Burn(contract: string, tokenId: string, mine: set<string>, hash: Hash)
      requires Valid(hash) && mine == TokenRows(holders, contract, tokenId)
      modifies this
      ensures Valid(hash) && owners == old(owners) - {(contract, tokenId)}
      ensures supply == if contract !in old(supply) || (contract, tokenId) !in old(owners) then old(supply)
                        else old(supply)[contract := old(supply)[contract] - 1]
      ensures SameSurplus(old(holders), old(supply), holders, supply)
    {
      BurnStep(holders, owners, supply, contract, tokenId, mine, hash, addressLength);
      if mine != {} {
        holders := holders - mine;
        AddSupply(contract, -1);
      }
      owners := owners - {(contract, tokenId)};
    }

    /** An insert; a row with the same id would make it a failure that changes nothing. */
    method Insert(contract: string, tokenId: string, to: string, id: string, hash: Hash)
      requires Valid(hash) && Injective(hash) && HasAddresses(Holder(contract, to, tokenId), addressLength)
      requires TokenRows(holders, contract, tokenId) == {} && id == RowId(hash, Holder(contract, to, tokenId))
      modifies this
      ensures Valid(hash) && owners == old(owners)[(contract, tokenId) := to] && (contract, tokenId) !in old(owners)
      ensures supply == if contract !in old(supply) then old(supply)
                        else old(supply)[contract := old(supply)[contract] + 1]
      ensures SameSurplus(old(holders), old(supply), holders, supply)
    {
      OneRowPerToken(holders, owners, contract, tokenId, hash, addressLength);
      InsertConsistent(holders, owners, contract, tokenId, to, hash, addressLength);
      if id !in holders {
        RowsWith(holders, id, Holder(contract, to, tokenId));
        holders := holders[id := Holder(contract, to, tokenId)];
        AddSupply(contract, 1);
      }
      owners := owners[(contract, tokenId) := to];
    }

    /** "update set id, holder where contract and token_id match"; a clash of ids would make it a failure. */
    method Update(contract: string, tokenId: string, to: string, id: string, mine: set<string>, hash: Hash)
      requires Valid(hash) && Injective(hash) && HasAddresses(Holder(contract, to, tokenId), addressLength)
      requires mine == TokenRows(holders, contract, tokenId) != {} && id == RowId(hash, Holder(contract, to, tokenId))
      modifies this
      ensures Valid(hash) && owners == old(owners)[(contract, tokenId) := to] && (contract, tokenId) in old(owners)
      ensures supply == old(supply)
      ensures SameSurplus(old(holders), old(supply), holders, supply)
    {
      OneRowPerToken(holders, owners, contract, tokenId, hash, addressLength);
      RowsWithout(holders, mine, contract);
      BurnConsistent(holders, owners, contract, tokenId, hash, addressLength);
      var others := holders - mine;
      TokenRowsGone(holders, contract, tokenId);
      InsertConsistent(others, owners - {(contract, tokenId)}, contract, tokenId, to, hash, addressLength);
      if id !in others {
        RowsWith(others, id, Holder(contract, to, tokenId));
        holders := others[id := Holder(contract, to, tokenId)];
      }
      assert owners[(contract, tokenId) := to] == (owners - {(contract, tokenId)})[(contract, tokenId) := to];
      owners := owners[(contract, tokenId) := to];
    }
  }

  /** The table is one row for each reported owner, under the hash of the three texts, and nothing else. */
  lemma RowsAreTheOwners(store: Store, hash: Hash)
    requires store.Valid(hash)
    ensures store.holders.Keys == set k | k in store.owners :: hash(k.0 + store.owners[k] + k.1)
    ensures forall k :: k in store.owners ==>
            store.holders[hash(k.0 + store.owners[k] + k.1)] == Holder(k.0, store.owners[k], k.1)
  {
    var holders, owners := store.holders, store.owners;
    forall id | id in holders
      ensures var k := (holders[id].contract, holders[id].tokenId); k in owners && id == hash(k.0 + owners[k] + k.1)
    {
      assert id == RowId(hash, holders[id]);
    }
  }

  /** At most one holder row per token: the one of the last reported owner. */
  lemma OneRowPerToken(holders: map<string, Holder>, owners: Owners, contract: string, tokenId: string, hash: Hash,
                       len: nat)
    requires Consistent(holders, owners, hash, len)
    ensures TokenRows(holders, contract, tokenId) ==
            if (contract, tokenId) in owners
            then {RowId(hash, Holder(contract, owners[(contract, tokenId)], tokenId))}
            else {}
  {
    var k := (contract, tokenId);
    if k in owners {
      assert RowId(hash, Holder(k.0, owners[k], k.1)) in TokenRows(holders, contract, tokenId);
    }
  }

  lemma BurnConsistent(holders: map<string, Holder>, owners: Owners, contract: string, tokenId: string, hash: Hash,
                       len: nat)
    requires Consistent(holders, owners, hash, len)
    ensures Consistent(holders - TokenRows(holders, contract, tokenId), owners - {(contract, tokenId)}, hash, len)
  {
  }

  lemma TokenRowsGone(holders: map<string, Holder>, contract: string, tokenId: string)
    ensures TokenRows(holders - TokenRows(holders, contract, tokenId), contract, tokenId) == {}
  {
  }

  lemma InsertConsistent(holders: map<string, Holder>, owners: Owners, contract: string, tokenId: string, to: string,
                         hash: Hash, len: nat)
    requires Consistent(holders, owners, hash, len) && Injective(hash)
    requires HasAddresses(Holder(contract, to, tokenId), len)
    requires TokenRows(holders, contract, tokenId) == {}
    ensures var id := RowId(hash, Holder(contract, to, tokenId));
            && id !in holders
            && Consistent(holders[id := Holder(contract, to, tokenId)], owners[(contract, tokenId) := to], hash, len)
  {
    var r := Holder(contract, to, tokenId);
    forall x | x in holders
      ensures RowId(hash, r) != x && (holders[x].contract != contract || holders[x].tokenId != tokenId)
    {
      assert x !in TokenRows(holders, contract, tokenId);
      IdsCollideIff(hash, holders[x], r, len);
    }
  }

  lemma RowsWith(holders: map<string, Holder>, id: string, r: Holder)
    requires id !in holders
    ensures forall c :: |RowsOf(holders[id := r], c)| == |RowsOf(holders, c)| + (if c == r.contract then 1 else 0)
  {
    forall c ensures |RowsOf(holders[id := r], c)| == |RowsOf(holders, c)| + (if c == r.contract then 1 else 0) {
      assert RowsOf(holders[id := r], c) == if c == r.contract then RowsOf(holders, c) + {id} else RowsOf(holders, c);
    }
  }

  lemma RowsWithout(holders: map<string, Holder>, mine: set<string>, contract: string)
    requires forall id :: id in mine ==> id in holders && holders[id].contract == contract
    ensures forall c :: |RowsOf(holders - mine, c)| == |RowsOf(holders, c)| - (if c == contract then |mine| else 0)
  {
    forall c ensures |RowsOf(holders - mine, c)| == |RowsOf(holders, c)| - (if c == contract then |mine| else 0) {
      if c == contract {
        assert RowsOf(holders, c) == RowsOf(holders - mine, c) + mine;
      } else {
        assert RowsOf(holders, c) == RowsOf(holders - mine, c);
      }
    }
  }

  /** What a burn leaves, whether the token had a row or not. */
  lemma BurnStep(holders: map<string, Holder>, owners: Owners, supply: map<string, int>, contract: string,
                 tokenId: string, mine: set<string>, hash: Hash, len: nat)
    requires Consistent(holders, owners, hash, len) && mine == TokenRows(holders, contract, tokenId)
    ensures mine == {} <==> (contract, tokenId) !in owners
    ensures mine == {} ==> holders - mine == holders
    ensures Consistent(holders - mine, owners - {(contract, tokenId)}, hash, len)
    ensures SameSurplus(holders, supply, holders - mine,
                        if mine == {} || contract !in supply then supply
                        else supply[contract := supply[contract] - 1])
  {
    OneRowPerToken(holders, owners, contract, tokenId, hash, len);
    RowsWithout(holders, mine, contract);
    BurnConsistent(holders, owners, contract, tokenId, hash, len);
  }
}
