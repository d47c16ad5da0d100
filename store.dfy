/** The relational store the controllers talk to, as an in-memory object:
    one map per table, keyed by row id (wallets by their owner's id), and
    the counter from which the store hands out ids to inserted rows. Each
    method is one of the plain reads and writes the controllers issue. */
module Db {
  import opened Schema

  /** The contents of every table at one moment. */
  datatype Snapshot = Snapshot(
    offers: map<Id, Offer>,
    trades: map<Id, Trade>,
    messages: map<Id, Message>,
    wallets: map<UserId, Wallet>,
    transactions: map<Id, Transaction>,
    invoices: map<Id, Invoice>,
    nextId: Id)

  /** Every row sits under its own id, every id was handed out by the
      counter, every wallet sits under its owner, and no balance is negative. */
  ghost predicate WellFormed(s: Snapshot) {
    && 0 < s.nextId
    && (forall k :: k in s.offers ==> 0 < k < s.nextId && s.offers[k].id == k)
    && (forall k :: k in s.trades ==> 0 < k < s.nextId && s.trades[k].id == k)
    && (forall k :: k in s.messages ==> 0 < k < s.nextId && s.messages[k].id == k)
    && (forall k :: k in s.transactions ==> 0 < k < s.nextId && s.transactions[k].id == k)
    && (forall k :: k in s.invoices ==> 0 < k < s.nextId && s.invoices[k].id == k)
    && (forall u :: u in s.wallets ==> s.wallets[u].userId == u && s.wallets[u].balanceBch >= 0.0)
  }

  class Store {
    var offers: map<Id, Offer>
    var trades: map<Id, Trade>
    var messages: map<Id, Message>
    var wallets: map<UserId, Wallet>
    var transactions: map<Id, Transaction>
    var invoices: map<Id, Invoice>
    var nextId: Id

    function State(): Snapshot
      reads this
    {
      Snapshot(offers, trades, messages, wallets, transactions, invoices, nextId)
    }

    ghost predicate Valid()
      reads this
    {
      WellFormed(State())
    }

    constructor ()
      ensures Valid()
      ensures State() == Snapshot(map[], map[], map[], map[], map[], map[], 1)
    {
      offers, trades, messages := map[], map[], map[];
      wallets, transactions, invoices := map[], map[], map[];
      nextId := 1;
    }

    /** `insert` into offers; the store assigns the id. */
    method InsertOffer(row: Offer) returns (id: Id)
      requires Valid()
      modifies this
      ensures Valid()
      ensures id == old(nextId) && id !in old(offers)
      ensures State() == old(State()).(offers := old(offers)[id := row.(id := id)], nextId := id + 1)
    {
      id := nextId;
      offers := offers[id := row.(id := id)];
      nextId := id + 1;
    }

    /** `update` of an existing offer row. */
    method UpdateOffer(row: Offer)
      requires Valid() && row.id in offers
      modifies this
      ensures Valid()
      ensures State() == old(State()).(offers := old(offers)[row.id := row])
    {
      offers := offers[row.id := row];
    }

    /** `delete` of the offer row with the given id. */
    method DeleteOffer(id: Id)
      requires Valid()
      modifies this
      ensures Valid()
      ensures State() == old(State()).(offers := old(offers) - {id})
    {
      offers := offers - {id};
    }

    /** `insert` into trades; the store assigns the id. */
    method InsertTrade(row: Trade) returns (id: Id)
      requires Valid()
      modifies this
      ensures Valid()
      ensures id == old(nextId) && id !in old(trades)
      ensures State() == old(State()).(trades := old(trades)[id := row.(id := id)], nextId := id + 1)
    {
      id := nextId;
      trades := trades[id := row.(id := id)];
      nextId := id + 1;
    }

    /** `update` of an existing trade row. */
    method UpdateTrade(row: Trade)
      requires Valid() && row.id in trades
      modifies this
      ensures Valid()
      ensures State() == old(State()).(trades := old(trades)[row.id := row])
    {
      trades := trades[row.id := row];
    }

    /** `insert` or `update` of the wallet of `row.userId`. */
    method PutWallet(row: Wallet)
      requires Valid() && row.balanceBch >= 0.0
      modifies this
      ensures Valid()
      ensures State() == old(State()).(wallets := old(wallets)[row.userId := row])
    {
      wallets := wallets[row.userId := row];
    }

    /** `insert` into transactions; the store assigns the id. */
    method InsertTransaction(row: Transaction) returns (id: Id)
      requires Valid()
      modifies this
      ensures Valid()
      ensures id == old(nextId) && id !in old(transactions)
      ensures State() == old(State()).(transactions := old(transactions)[id := row.(id := id)], nextId := id + 1)
    {
      id := nextId;
      transactions := transactions[id := row.(id := id)];
      nextId := id + 1;
    }

    /** `insert` into invoices; the store assigns the id. */
    method InsertInvoice(row: Invoice) returns (id: Id)
      requires Valid()
      modifies this
      ensures Valid()
      ensures id == old(nextId) && id !in old(invoices)
      ensures State() == old(State()).(invoices := old(invoices)[id := row.(id := id)], nextId := id + 1)
    {
      id := nextId;
      invoices := invoices[id := row.(id := id)];
      nextId := id + 1;
    }
  }
}
