/** The wallet directory, as far as the ledger reads and writes it. */
module Wallets {
  import opened Wrappers
  import opened Transactions

  datatype Wallet = Wallet(id: string, userId: UserId, address: Address, privateKey: string, balance: int)

  /** `Wallet.findOne({ address })`: the position of the first wallet with that address. */
  function FindByAddress(ws: seq<Wallet>, address: Address): (r: Option<nat>)
    ensures r.Some? ==> r.value < |ws| && ws[r.value].address == address
    ensures r.Some? ==> forall q :: 0 <= q < r.value ==> ws[q].address != address
    ensures r.None? <==> forall q :: 0 <= q < |ws| ==> ws[q].address != address
  {
    FindAddressFrom(ws, address, 0)
  }

  function FindAddressFrom(ws: seq<Wallet>, address: Address, from: nat): (r: Option<nat>)
    requires from <= |ws|
    ensures r.Some? ==> from <= r.value < |ws| && ws[r.value].address == address
    ensures r.Some? ==> forall q :: from <= q < r.value ==> ws[q].address != address
    ensures r.None? <==> forall q :: from <= q < |ws| ==> ws[q].address != address
    decreases |ws| - from
  {
    if from == |ws| then None
    else if ws[from].address == address then Some(from)
    else FindAddressFrom(ws, address, from + 1)
  }

  /** `Wallet.findById(id)`: the position of the wallet with that id. */
  function FindById(ws: seq<Wallet>, id: string): (r: Option<nat>)
    ensures r.Some? ==> r.value < |ws| && ws[r.value].id == id
    ensures r.None? <==> forall q :: 0 <= q < |ws| ==> ws[q].id != id
  {
    FindIdFrom(ws, id, 0)
  }

  function FindIdFrom(ws: seq<Wallet>, id: string, from: nat): (r: Option<nat>)
    requires from <= |ws|
    ensures r.Some? ==> from <= r.value < |ws| && ws[r.value].id == id
    ensures r.None? <==> forall q :: from <= q < |ws| ==> ws[q].id != id
    decreases |ws| - from
  {
    if from == |ws| then None
    else if ws[from].id == id then Some(from)
    else FindIdFrom(ws, id, from + 1)
  }

  /** The directory's unique index on `address`. */
  ghost predicate UniqueAddresses(ws: seq<Wallet>)
  {
    forall q, r :: 0 <= q < r < |ws| ==> ws[q].address != ws[r].address
  }

  /** Two directories holding the same wallets at the same positions, balances aside. */
  ghost predicate SameKeys(ws: seq<Wallet>, ws': seq<Wallet>)
  {
    |ws'| == |ws| &&
    forall q :: 0 <= q < |ws| ==> ws'[q] == ws[q].(balance := ws'[q].balance)
  }

  /** With unique addresses, the wallet at a position is the one its address finds. */
  lemma FindOwnAddress(ws: seq<Wallet>, q: nat)
    requires UniqueAddresses(ws)
    requires q < |ws|
    ensures FindByAddress(ws, ws[q].address) == Some(q)
  {
  }

  /** Balance changes do not move any wallet in an address lookup. */
  lemma {:induction false} FindByAddressIgnoresBalances(ws: seq<Wallet>, ws': seq<Wallet>, address: Address)
    requires SameKeys(ws, ws')
    ensures FindByAddress(ws', address) == FindByAddress(ws, address)
  {
    var r := FindByAddress(ws, address);
    var r' := FindByAddress(ws', address);
    assert forall q :: 0 <= q < |ws| ==> ws'[q].address == ws[q].address;
    if r.Some? && r'.Some? {
      assert !(r.value < r'.value) && !(r'.value < r.value);
    }
  }
}
