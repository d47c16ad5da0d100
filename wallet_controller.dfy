/** The Express wallet controller: the balance (in BCH and in US dollars at
    the cached price), the deposit address with get-or-create of the
    wallet, withdrawals guarded by the balance and logged as transactions,
    and the recent transaction history. */
module WalletController {
  import opened Common
  import opened Schema
  import opened Listing
  import Db
  import BchService
  import PriceService

  /** `getBalance`: a user without a wallet gets one, at a fresh address,
      and is answered 0 and 0 without the price being consulted; otherwise
      the balance is answered with its value at the served dollar price. */
  method GetBalance(db: Db.Store, cache: PriceService.PriceCache, userId: UserId,
                    addressDraws: seq<real>, now: int, fetch: PriceService.FetchOutcome)
    returns (balanceBch: real, balanceUsd: real)
    requires db.Valid()
    requires BchService.BodyDigits <= |addressDraws| && AllDraws(addressDraws)
    modifies db, cache
    ensures db.Valid()
    ensures userId !in old(db.wallets) ==>
      && balanceBch == 0.0 && balanceUsd == 0.0
      && cache.State() == old(cache.State())
      && userId in db.wallets && BchService.ValidateAddress(db.wallets[userId].address)
      && db.State() == old(db.State()).(wallets := old(db.wallets)[userId := Wallet(userId, db.wallets[userId].address, 0.0)])
    ensures userId in old(db.wallets) ==>
      var served := PriceService.Serve(old(cache.State()), now, fetch);
      && balanceBch == old(db.wallets)[userId].balanceBch
      && balanceUsd == balanceBch * served.prices.usd
      && cache.State() == served.cache
      && db.State() == old(db.State())
  {
    if userId !in db.wallets {
      var address := BchService.GenerateAddress(addressDraws);
      db.PutWallet(Wallet(userId, address, 0.0));
      return 0.0, 0.0;
    }
    var prices, _ := cache.GetBCHPrices(now, fetch);
    balanceBch := db.wallets[userId].balanceBch;
    balanceUsd := balanceBch * prices.usd;
  }

  /** `getAddress`: the wallet's address, creating the wallet at a fresh
      address when there is none. Once a wallet exists its address is
      answered unchanged on every later call. */
  method GetAddress(db: Db.Store, userId: UserId, addressDraws: seq<real>) returns (address: string)
    requires db.Valid()
    requires BchService.BodyDigits <= |addressDraws| && AllDraws(addressDraws)
    modifies db
    ensures db.Valid()
    ensures userId in db.wallets && db.wallets[userId].address == address
    ensures userId in old(db.wallets) ==> address == old(db.wallets)[userId].address && db.State() == old(db.State())
    ensures userId !in old(db.wallets) ==>
      && BchService.ValidateAddress(address) && |address| == 50
      && db.State() == old(db.State()).(wallets := old(db.wallets)[userId := Wallet(userId, address, 0.0)])
  {
    if userId in db.wallets {
      return db.wallets[userId].address;
    }
    address := BchService.GenerateAddress(addressDraws);
    db.PutWallet(Wallet(userId, address, 0.0));
  }

  /** The checks `withdraw` makes; on success, the balance left. The amount
      must be present and positive, the address present and non-empty, the
      wallet present and holding at least the amount. */
  function CheckWithdraw(address: Option<string>, amount: Option<real>, wallet: Option<Wallet>): (r: Result<real>)
    ensures FalsyText(address) || amount.None? || amount.value <= 0.0 ==> r == Err(BadRequest("Invalid address or amount"))
    ensures !(FalsyText(address) || amount.None? || amount.value <= 0.0) && (wallet.None? || wallet.value.balanceBch < amount.value) ==>
      r == Err(BadRequest("Insufficient balance"))
    ensures r.Ok? <==> !FalsyText(address) && amount.Some? && amount.value > 0.0 && wallet.Some? && wallet.value.balanceBch >= amount.value
    ensures r.Ok? ==> r.value == wallet.value.balanceBch - amount.value && 0.0 <= r.value < wallet.value.balanceBch
  {
    if FalsyText(address) || FalsyNumber(amount) || amount.value <= 0.0 then Err(BadRequest("Invalid address or amount"))
    else if wallet.None? || wallet.value.balanceBch < amount.value then Err(BadRequest("Insufficient balance"))
    else Ok(wallet.value.balanceBch - amount.value)
  }

  /** Withdrawing exactly the whole balance is allowed and leaves zero. */
  lemma FullBalanceWithdrawable(address: string, w: Wallet)
    requires address != "" && w.balanceBch > 0.0
    ensures CheckWithdraw(Some(address), Some(w.balanceBch), Some(w)) == Ok(0.0)
  {
  }

  /** `withdraw`: lowers the balance, then logs a withdrawal with no
      confirmations under the supplied transaction id. */
  method Withdraw(db: Db.Store, userId: UserId, address: Option<string>, amount: Option<real>, txid: string, now: int)
    returns (r: Result<string>)
    requires db.Valid()
    modifies db
    ensures db.Valid()
    ensures var check := CheckWithdraw(address, amount, Common.Get(old(db.wallets), userId));
      && (r.Ok? <==> check.Ok?)
      && (r.Err? ==> r.error == check.error && db.State() == old(db.State()))
      && (r.Ok? ==>
            && r.value == txid
            && db.State() == old(db.State()).(
                 wallets := old(db.wallets)[userId := old(db.wallets)[userId].(balanceBch := check.value)],
                 transactions := old(db.transactions)[old(db.nextId) :=
                   Transaction(old(db.nextId), userId, txid, Withdrawal, amount.value, 0, now)],
                 nextId := old(db.nextId) + 1))
  {
    if address.None? || address.value == "" || amount.None? || amount.value == 0.0 || amount.value <= 0.0 {
      return Err(BadRequest("Invalid address or amount"));
    }
    if userId !in db.wallets || db.wallets[userId].balanceBch < amount.value {
      return Err(BadRequest("Insufficient balance"));
    }
    var wallet := db.wallets[userId];
    var newBalance := wallet.balanceBch - amount.value;
    db.PutWallet(wallet.(balanceBch := newBalance));
    var _ := db.InsertTransaction(Transaction(0, userId, txid, Withdrawal, amount.value, 0, now));
    r := Ok(txid);
  }

  /** The balance after a series of withdrawal requests of the given
      amounts, and the total withdrawn. */
  function WithdrawSeries(w: Wallet, amounts: seq<real>): (Wallet, real) {
    if amounts == [] then (w, 0.0)
    else
      var (after, total) := WithdrawSeries(w, amounts[..|amounts| - 1]);
      var a := amounts[|amounts| - 1];
      match CheckWithdraw(Some("address"), Some(a), Some(after))
      case Ok(left) => (after.(balanceBch := left), total + a)
      case Err(_) => (after, total)
  }

  /** However the requests are chosen, what is withdrawn plus what is left
      is what the wallet held, and the balance never goes negative. */
  lemma {:induction false} WithdrawalsConserve(w: Wallet, amounts: seq<real>)
    requires w.balanceBch >= 0.0
    ensures var (after, total) := WithdrawSeries(w, amounts);
      total + after.balanceBch == w.balanceBch && after.balanceBch >= 0.0 && total >= 0.0
    decreases |amounts|
  {
    if amounts != [] {
      WithdrawalsConserve(w, amounts[..|amounts| - 1]);
    }
  }

  /** The columns `getTransactions` selects, with `timestamp` added as a
      copy of `created_at`. */
  datatype TransactionView = TransactionView(
    txid: string, kind: TransactionKind, amountBch: real, confirmations: nat, createdAt: int, timestamp: int)

  function ViewOf(t: Transaction): TransactionView {
    TransactionView(t.txid, t.kind, t.amountBch, t.confirmations, t.createdAt, t.createdAt)
  }

  /** At most this many transactions are listed. */
  const HistoryLimit := 50

  /** The requester's transactions, each once, newest first, before the limit. */
  function UserTransactions(s: Db.Snapshot, userId: UserId): (r: seq<Transaction>)
    requires Db.WellFormed(s)
    ensures forall t :: multiset(r)[t] == if t in s.transactions.Values && t.userId == userId then 1 else 0
    ensures forall t :: t in r <==> t in s.transactions.Values && t.userId == userId
    ensures forall i, j :: 0 <= i < j < |r| ==> r[i].id != r[j].id
    ensures Descending(r, TransactionCreated)
  {
    Query(s.transactions, s.nextId, (t: Transaction) => t.id, (t: Transaction) => t.userId == userId, TransactionCreated)
  }

  /** `getTransactions`: the requester's 50 newest transactions, each once,
      newest first, each with `timestamp` equal to its `created_at`. */
  function GetTransactions(s: Db.Snapshot, userId: UserId): (r: seq<TransactionView>)
    requires Db.WellFormed(s)
    ensures var mine := UserTransactions(s, userId);
      && |r| == (if |mine| < HistoryLimit then |mine| else HistoryLimit)
      && forall j :: 0 <= j < |r| ==> r[j] == ViewOf(mine[j])
  {
    Views(Take(UserTransactions(s, userId), HistoryLimit))
  }

  /** The history is newest first, and each entry's `timestamp` is its
      `created_at`. */
  lemma HistoryNewestFirst(s: Db.Snapshot, userId: UserId)
    requires Db.WellFormed(s)
    ensures var r := GetTransactions(s, userId);
      && (forall j :: 0 <= j < |r| ==> r[j].timestamp == r[j].createdAt)
      && (forall i, j :: 0 <= i < j < |r| ==> r[i].timestamp >= r[j].timestamp)
  {
    var recent := Take(UserTransactions(s, userId), HistoryLimit);
    assert Descending(recent, TransactionCreated);
    assert GetTransactions(s, userId) == Views(recent);
  }

  /** The selected columns of each row, in the rows' order. */
  function Views(ts: seq<Transaction>): (r: seq<TransactionView>)
    ensures |r| == |ts| && forall j :: 0 <= j < |r| ==> r[j] == ViewOf(ts[j])
    ensures forall j :: 0 <= j < |r| ==> r[j].timestamp == r[j].createdAt == ts[j].createdAt
    ensures Descending(ts, TransactionCreated) ==> forall i, j :: 0 <= i < j < |r| ==> r[i].timestamp >= r[j].timestamp
  {
    seq(|ts|, j requires 0 <= j < |ts| => ViewOf(ts[j]))
  }

  /** A user with at most 50 transactions sees every one of them. */
  lemma ShortHistoryComplete(s: Db.Snapshot, userId: UserId, t: Transaction)
    requires Db.WellFormed(s) && |UserTransactions(s, userId)| <= HistoryLimit
    requires t in s.transactions.Values && t.userId == userId
    ensures ViewOf(t) in GetTransactions(s, userId)
  {
    var all := UserTransactions(s, userId);
    assert t in all;
    var i :| 0 <= i < |all| && all[i] == t;
    var r := GetTransactions(s, userId);
    assert |r| == |all|;
    assert r[i] == ViewOf(all[i]);
  }
}
