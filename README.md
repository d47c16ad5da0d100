# BCH P2P marketplace: trade and offer bookkeeping in Dafny

This project models the server side of a peer-to-peer Bitcoin Cash marketplace.
- Users post buy and sell **offers**, priced in a fiat currency.
- Other users open **trades** against those offers. Each trade draws BCH from the offer and moves along a fixed status graph: `initiated → funded → paid → completed`, with `disputed` and `cancelled` on the side.
- Users also keep a **wallet**, from which they withdraw into a transaction log.
- They issue **invoices** priced in fiat and converted to BCH at a cached market price.

The model covers these code paths:
- the Express controllers for trades, offers, wallets and invoices;
- the two Next.js routes that duplicate trade and offer creation;
- the one-minute price cache;
- the two placeholder address services.

The relational store is an object, `Db.Store`. It holds one map per table and a single counter that hands out row ids. Each controller is a method that reads the store, makes the same checks in the same order as the source, and answers either a value or a typed error: `BadRequest` (400), `Forbidden` (403) or `NotFound` (404). The decision part of each controller is a separate function (`CheckInitiate`, `CheckStatusUpdate`, `CheckRelease`, `CheckDelete`, `CheckWithdraw`, `BuildOffer`, `ConvertToBch`). The method's contract ties its answer and the new store state to that function. Lemmas then state what those functions promise.

Read-only endpoints are functions of a store snapshot (`Db.Snapshot`). The query builder's operations each have a function in `Listing`:
- select the rows a `WHERE` clause keeps;
- sort by `created_at`, newest first;
- cut out a `range(from, to)` window;
- take the first `n` rows (`limit(n)`).

Inputs the code cannot see are passed in as parameters:
- the clock (`now`);
- the uniform random draws behind `Math.random()` (`draws`, reals in [0, 1));
- the price feed's answer (`FetchOutcome`: the prices together with the clock reading when they arrived, or a failure);
- the placeholder transaction ids the controllers build from the clock (`txid`).

`BchService.GetAddressBalance` is the constant function 0, as in the source. It carries no further contract.

Module layout:
- `Common`: shared types and helpers.
- `Schema`: the table rows.
- `Listing`: the query builder's operations.
- `Db`: the store.
- One module per source file: `BchService`, `LibBchService`, `PriceService`, `TradeController`, `OfferController`, `WalletController`, `InvoiceController`, `TradesRoute`, `OffersRoute`.

## Model

| member | source | states |
|---|---|---|
| Common.Get | backend/src/controllers/trade.controller.ts:119-131 | a lookup by key (`.eq(...).single()`) finds a row exactly when the key is in the table, and then that row |
| Common.Pick | backend/src/services/bch.service.ts:11 | the character a draw selects always belongs to the alphabet |
| Common.JsLength | src/lib/services/bch.service.ts:13 | `length` counts UTF-16 code units: at least the number of characters and at most twice it |
| Common.JsLengthConcat | src/lib/services/bch.service.ts:13 | the code-unit length of a concatenation is the sum of the parts' lengths |
| Listing.RowsBelow | backend/src/controllers/trade.controller.ts:88-89 | the table scan yields exactly the rows whose ids lie below the counter, and no more rows than ids |
| Listing.RowsBelowOnce | backend/src/controllers/trade.controller.ts:88-89 | when every row carries its own key as id, the scan yields each such row exactly once |
| Listing.Filter | backend/src/controllers/trade.controller.ts:95 | a `WHERE` keeps each row that satisfies it as often as it occurs, drops every other row, and keeps the kept rows in their order |
| Listing.SortDesc | backend/src/controllers/trade.controller.ts:96 | `order(created_at, desc)` yields the same rows (a permutation) in non-increasing key order |
| Listing.Query | backend/src/controllers/trade.controller.ts:88-96 | `select … where … order by … desc` over a table keyed by id yields every selected row exactly once, no two with the same id, largest key first |
| Listing.CountOnce | backend/src/controllers/offer.controller.ts:43-46 | a listing that holds each selected row once and nothing else is as long as the number of selected rows |
| Listing.Range | backend/src/controllers/offer.controller.ts:63 | `range(from, to)` holds the rows at positions from..to inclusive, in order, and every such existing row |
| Listing.Take | backend/src/controllers/wallet.controller.ts:115 | `limit(n)` is the first min(n, length) rows |
| Db.Store.InsertOffer | backend/src/controllers/offer.controller.ts:13-26 | the row is stored under a fresh id from the counter; no other table changes |
| Db.Store.InsertTrade | backend/src/controllers/trade.controller.ts:43-57 | the row is stored under a fresh id from the counter; no other table changes |
| Db.Store.UpdateOffer | backend/src/controllers/trade.controller.ts:63-73 | only the named offer row is replaced |
| Db.Store.UpdateTrade | backend/src/controllers/trade.controller.ts:192-195 | only the named trade row is replaced |
| Db.Store.DeleteOffer | backend/src/controllers/offer.controller.ts:129-132 | only the named offer row is removed |
| Db.Store.PutWallet | backend/src/controllers/wallet.controller.ts:85-88 | only the user's wallet row is written; balances stay non-negative |
| Db.Store.InsertTransaction | backend/src/controllers/wallet.controller.ts:92-99 | the log row is appended under a fresh id |
| Db.Store.InsertInvoice | backend/src/controllers/invoice.controller.ts:27-39 | the invoice row is stored under a fresh id |
| BchService.RandomHex | backend/src/services/bch.service.ts:7-14 | exactly `length` characters, character i the hex digit draw i selects |
| BchService.GenerateAddress | backend/src/services/bch.service.ts:16-21 | `bchtest:` + `q` + 41 hex digits, 50 characters, and the result passes `validateAddress` |
| BchService.ValidateAddressMeaning | backend/src/services/bch.service.ts:23-26 | valid exactly when the address is one of the two network prefixes followed by anything |
| LibBchService.GenerateAddress | src/lib/services/bch.service.ts:2-10 | `bitcoincash:q` + 40 characters of the 62-letter alphabet, 53 characters, passing `validateAddress` |
| LibBchService.ShortPrefixedAddressRejected | src/lib/services/bch.service.ts:12-14 | a prefixed string of at most 20 UTF-16 code units is refused |
| LibBchService.LengthCountsCodeUnits | src/lib/services/bch.service.ts:12-14 | the prefix plus four characters outside the Basic Multilingual Plane is 17 characters long but at least 21 code units, and is accepted |
| LibBchService.AcceptedByBackEnd | src/lib/services/bch.service.ts:12-14 | every address this validator accepts the back end's validator accepts too |
| LibBchService.TestnetAddressRejected | src/lib/services/bch.service.ts:12-14 | no `bchtest:` address, so none the back end generates, passes this validator |
| PriceService.Serve | backend/src/services/price.service.ts:15-55 | the feed is asked iff the cache is empty or at least 60000 ms old; a fresh cache is answered unchanged; a stale cache and a successful fetch answer the fetched prices and cache them with the fetch time; a stale cache and a failed fetch keep the cache and answer it, or the fallback when it is empty |
| PriceService.ServedFromCacheWithinTtl | backend/src/services/price.service.ts:17-40 | within a minute of a successful fetch the same prices are answered again without asking the feed |
| PriceService.StaleAtExactlyTtl | backend/src/services/price.service.ts:17 | a cache exactly 60000 ms old is stale (strict comparison) |
| PriceService.FailedFetchDegrades | backend/src/services/price.service.ts:41-54 | a failed fetch answers the cached prices if any, else 450/37500/415, and leaves the cache as it was |
| PriceService.CacheStaysFilled | backend/src/services/price.service.ts:35-47 | once filled the cache never empties, so the fallback only appears before the first successful fetch |
| PriceService.PriceCache.constructor | backend/src/services/price.service.ts:8-11 | the cache starts empty with timestamp 0 |
| PriceService.PriceCache.GetBCHPrices | backend/src/services/price.service.ts:15-55 | the answer and the new cache are exactly those `Serve` gives; every path answers a price triple |
| TradeController.TransitionAdvances | backend/src/controllers/trade.controller.ts:181-188 | every edge of the status table moves strictly forward, so there is no self-loop |
| TradeController.TerminalIffNoSuccessor | backend/src/controllers/trade.controller.ts:181-188 | completed and cancelled are exactly the statuses without an outgoing edge |
| TradeController.RunAdvances | backend/src/controllers/trade.controller.ts:181-190 | each step of a run of accepted transitions advances the stage by at least one |
| TradeController.RunsAreShortAndSimple | backend/src/controllers/trade.controller.ts:181-190 | a run of accepted transitions has at most five statuses and never revisits one |
| TradeController.LifecycleTo | backend/src/controllers/trade.controller.ts:181-186 | every status is reachable from initiated by accepted transitions |
| TradeController.ParseStatus | backend/src/controllers/trade.controller.ts:188 | a requested status string names a status exactly when it is one of the six stored names |
| TradeController.DeriveRoles | backend/src/controllers/trade.controller.ts:30-38 | a sell offer's owner sells and any other offer's owner buys; the two roles are the owner and the initiator, distinct exactly when they differ |
| TradeController.CheckInitiate | backend/src/controllers/trade.controller.ts:10-26 | 404 for a missing offer, 400 for a self-trade, 400 when the amount exceeds the offer's, in that order; success iff none applies, with buyer ≠ seller |
| TradeController.ConsumeOffer | backend/src/controllers/trade.controller.ts:61-73 | remainder ≤ 0: status inactive, amount untouched; otherwise amount becomes the remainder, status kept; no other field changes |
| TradeController.ActiveAfterConsumeHasStock | backend/src/controllers/trade.controller.ts:62-73 | an offer still active after a trade has a positive amount left |
| TradeController.OpenedTrade | backend/src/controllers/trade.controller.ts:28-55 | the inserted trade is initiated, its fiat amount is amount × price, and currency and method are copied from the offer |
| TradeController.InitiateTrade | backend/src/controllers/trade.controller.ts:6-79 | on a failed check nothing is written; otherwise exactly one trade is inserted with a valid escrow address and exactly the offer is consumed |
| TradeController.GetTrades | backend/src/controllers/trade.controller.ts:86-108 | each trade the user buys or sells in exactly once (multiset), no other trade, no two with the same id, newest first |
| TradeController.TradeMessages | backend/src/controllers/trade.controller.ts:138-143 | each message of the trade exactly once, no other message, no two with the same id, oldest first |
| TradeController.OldestFirst | backend/src/controllers/trade.controller.ts:143 | descending by negated creation time is ascending by creation time |
| TradeController.GetTrade | backend/src/controllers/trade.controller.ts:115-154 | 404 when absent, 403 unless buyer or seller, otherwise the trade with exactly its messages (`TradeMessages`: each once, oldest first) |
| TradeController.OpenedTradeVisibleToBoth | backend/src/controllers/trade.controller.ts:86-136 | a trade just inserted is listed for, and fetchable by, both its buyer and its seller |
| TradeController.CheckStatusUpdate | backend/src/controllers/trade.controller.ts:172-190 | 403 unless a participant; success iff the requested name is a status reachable by one table edge; otherwise 400 |
| TradeController.RepeatedStatusRejected | backend/src/controllers/trade.controller.ts:181-190 | requesting the status a trade already has always fails |
| TradeController.UpdateTradeStatus | backend/src/controllers/trade.controller.ts:161-199 | 404/403/400 leave the store unchanged; success changes only that trade's status and update time |
| TradeController.AtMostFourUpdates | backend/src/controllers/trade.controller.ts:181-195 | over any series of requests a trade changes status at most four times |
| TradeController.CheckRelease | backend/src/controllers/trade.controller.ts:216-226 | 403 unless the seller, then 400 unless paid; success iff seller and paid |
| TradeController.ReleaseIsCompletionEdge | backend/src/controllers/trade.controller.ts:220-235 | a permitted release is the paid → completed edge the seller could also request |
| TradeController.BuyerCanCompleteWithoutRelease | backend/src/controllers/trade.controller.ts:176-190 | the buyer of a paid trade cannot release but can mark it completed through a status update |
| TradeController.TerminalTradesAreFrozen | backend/src/controllers/trade.controller.ts:181-226 | a completed or cancelled trade can be neither moved nor released |
| TradeController.ReleaseBch | backend/src/controllers/trade.controller.ts:206-239 | failures leave the store unchanged; success completes only that trade and answers the transaction id |
| TradeController.ExhaustedOfferStaysTradeable | backend/src/controllers/trade.controller.ts:20-73 | an offer drawn to exactly zero turns inactive but keeps its amount and can be traded again in full |
| TradeController.NegativeTradeGrowsOffer | backend/src/controllers/trade.controller.ts:24-73 | a negative amount passes every check and increases the offer's amount |
| TradeController.CheckInitiateGuarded | backend/src/controllers/trade.controller.ts:16-26 | the checks plus a positive amount and an active offer; otherwise the same answer |
| TradeController.ConsumeOfferGuarded | backend/src/controllers/trade.controller.ts:61-73 | the amount always becomes the remainder, and the offer turns inactive once the remainder is ≤ 0 |
| TradeController.GuardedSeriesConserves | backend/src/controllers/trade.controller.ts:24-73 | with the guards, traded plus remaining always equals what was offered, and neither goes negative |
| OfferController.BuildOffer | backend/src/controllers/offer.controller.ts:7-24 | 400 iff a required field is falsy; otherwise the owner's row with the given fields, min limit defaulting to 0 and max limit to amount × price |
| OfferController.CreatedOfferTradeable | backend/src/controllers/offer.controller.ts:9-24 | any other user may open a trade for the whole of a newly created offer |
| OfferController.CreateOffer | backend/src/controllers/offer.controller.ts:5-30 | 400 writes nothing; success inserts exactly the built row under a fresh id |
| OfferController.MatchingOffers | backend/src/controllers/offer.controller.ts:41-56 | each active offer of the requested side and currency exactly once, no other offer, no two with the same id, newest first; as many as there are such offers |
| OfferController.PageStart | backend/src/controllers/offer.controller.ts:58-60 | the window of a page ≥ 1 with a non-negative limit starts at a non-negative position |
| OfferController.Paginate | backend/src/controllers/offer.controller.ts:58-63 | a page has at most `limit` rows, taken in order from (page − 1) × limit, and every row of that window |
| OfferController.GetOffers | backend/src/controllers/offer.controller.ts:37-76 | only matching active offers, newest first, the page's window of them, `total` equal to the number of matching offers, and the page used |
| OfferController.DefaultPageSize | backend/src/controllers/offer.controller.ts:39 | without a limit a page holds at most 20 offers |
| OfferController.PaginateCovers | backend/src/controllers/offer.controller.ts:58-63 | row k of page p is the row at position (p − 1) × limit + k |
| OfferController.EveryOfferOnItsPage | backend/src/controllers/offer.controller.ts:58-65 | every matching offer appears on the page its position falls in |
| OfferController.GetOffer | backend/src/controllers/offer.controller.ts:83-104 | 404 iff the id is absent; otherwise that offer, whatever its status |
| OfferController.CheckDelete | backend/src/controllers/offer.controller.ts:115-127 | 404 when absent, 403 unless the owner; success iff present and owned |
| OfferController.DeleteOffer | backend/src/controllers/offer.controller.ts:111-136 | failures leave the store unchanged; success removes exactly that offer |
| OfferController.DeletedOfferGone | backend/src/controllers/offer.controller.ts:129-132 | after a delete the offer answers 404 and every other offer is unchanged |
| OfferController.NegativeOfferAccepted | backend/src/controllers/offer.controller.ts:9-24 | a negative amount and price, and a min limit above the max limit, are accepted |
| OfferController.BuildOfferChecked | backend/src/controllers/offer.controller.ts:9-11 | accepted offers have positive amount and price and 0 ≤ min ≤ max |
| OfferController.BuildOfferCheckedExact | backend/src/controllers/offer.controller.ts:9-11 | the checked creation refuses exactly the rows that break those rules |
| OffersRoute.Get | src/app/api/offers/route.ts:6-38 | each active offer of the given type and currency exactly once, no other, newest first, with no window |
| OffersRoute.FirstPageIsPrefix | src/app/api/offers/route.ts:12-28 | the controller's first page is a prefix of the route's list, and equal when all matches fit |
| OffersRoute.Post | src/app/api/offers/route.ts:49-94 | 400 iff a required field is falsy; otherwise the same row as the controller, stored and answered with 201 |
| TradesRoute.Get | src/app/api/trades/route.ts:6-28 | each of the user's trades as buyer or seller exactly once, no other, newest first |
| TradesRoute.CheckPost | src/app/api/trades/route.ts:44-74 | 400 for a falsy offer id or amount, 404 for a missing offer; otherwise roles by the offer's side |
| TradesRoute.Post | src/app/api/trades/route.ts:39-93 | on success one initiated trade with the mock escrow address is inserted and answered with 201; the offer is untouched |
| TradesRoute.RouteAcceptsWhatControllerAccepts | src/app/api/trades/route.ts:44-74 | whatever the controller accepts with a nonzero amount, the route accepts with the same roles |
| TradesRoute.RouteSkipsControllerChecks | src/app/api/trades/route.ts:51-93 | the route accepts a self-trade for more than the offer holds, which the controller refuses |
| WalletController.GetBalance | backend/src/controllers/wallet.controller.ts:7-31 | no wallet: one is created at a valid address and 0/0 answered without a price lookup; otherwise balance and balance × served USD price |
| WalletController.GetAddress | backend/src/controllers/wallet.controller.ts:38-57 | an existing wallet's address unchanged, or a new wallet at a valid address; afterwards the wallet holds the answered address |
| WalletController.CheckWithdraw | backend/src/controllers/wallet.controller.ts:66-80 | 400 for a missing address or non-positive amount, then 400 without enough balance; success leaves balance − amount ≥ 0 |
| WalletController.FullBalanceWithdrawable | backend/src/controllers/wallet.controller.ts:78-84 | withdrawing exactly the whole balance is allowed and leaves zero |
| WalletController.Withdraw | backend/src/controllers/wallet.controller.ts:64-101 | failures write nothing; success lowers only the user's balance and appends exactly one withdrawal row |
| WalletController.WithdrawalsConserve | backend/src/controllers/wallet.controller.ts:78-88 | over any series of withdrawals, withdrawn plus remaining equals the starting balance, never negative |
| WalletController.UserTransactions | backend/src/controllers/wallet.controller.ts:110-114 | each of the user's transactions exactly once, no other, no two with the same id, newest first |
| WalletController.GetTransactions | backend/src/controllers/wallet.controller.ts:108-123 | the first min(50, n) of the user's n transactions, entry j the selected columns of the j-th newest, so each at most once |
| WalletController.HistoryNewestFirst | backend/src/controllers/wallet.controller.ts:114-123 | the history is newest first and each entry's timestamp is its created_at |
| WalletController.ShortHistoryComplete | backend/src/controllers/wallet.controller.ts:110-115 | a user with at most 50 transactions sees all of them |
| InvoiceController.ToLower | backend/src/controllers/invoice.controller.ts:17 | the same length, upper-case ASCII letters lowered, everything else kept |
| InvoiceController.ToLowerIdempotent | backend/src/controllers/invoice.controller.ts:17 | lowering twice is lowering once |
| InvoiceController.ConvertToBch | backend/src/controllers/invoice.controller.ts:15-24 | 400 "Invalid currency" iff the lower-cased key has no price or a zero price; otherwise amount_bch × price = amount_fiat |
| InvoiceController.CurrencyCaseInsensitive | backend/src/controllers/invoice.controller.ts:17-20 | every currency spelling converts exactly as its lower-case form does (so "USD" as "usd") |
| InvoiceController.UnknownCurrencyRefused | backend/src/controllers/invoice.controller.ts:17-22 | every currency whose lower-case form is not usd, inr or eur is refused with "Invalid currency", whatever the prices |
| InvoiceController.NewInvoice | backend/src/controllers/invoice.controller.ts:27-37 | the stored row is pending and unpaid, with a falsy description stored as null |
| InvoiceController.CreateInvoice | backend/src/controllers/invoice.controller.ts:7-48 | fields are checked before the price is fetched; a bad currency writes nothing; success inserts one pending invoice at a valid address |
| InvoiceController.GetInvoices | backend/src/controllers/invoice.controller.ts:55-65 | each of the user's invoices exactly once, no other, no two with the same id, newest first |
| InvoiceController.GetInvoice | backend/src/controllers/invoice.controller.ts:72-86 | 404 iff absent; otherwise the whole row, with no owner check |
| InvoiceController.GetPublicInvoice | backend/src/controllers/invoice.controller.ts:93-107 | 404 exactly when the owner's view is 404; otherwise the public projection of the row |
| InvoiceController.PublicViewHidesOwner | backend/src/controllers/invoice.controller.ts:99 | the public view is the same whoever owns the invoice, and shows every other field as stored |

## Findings

| source | as written | input that shows it | evidently intended | confidence | as-written member | corrected member |
|---|---|---|---|---|---|---|
| backend/src/controllers/trade.controller.ts:62-67 | a trade that uses up the offer only sets it inactive and leaves `amount_bch`; `initiateTrade` never looks at the status | offer of 1.0 BCH; two other-user trades of 1.0 each both pass, 2.0 BCH traded in all | the amount records what is left, and an exhausted or inactive offer cannot be traded | not executed | TradeController.ExhaustedOfferStaysTradeable | TradeController.GuardedSeriesConserves |
| backend/src/controllers/trade.controller.ts:24 | only `amount_bch > offer.amount_bch` is refused | amount −0.5 on an offer of 1.0 passes, and the offer grows to 1.5 | the amount must be positive | not executed | TradeController.NegativeTradeGrowsOffer | TradeController.CheckInitiateGuarded |
| backend/src/controllers/offer.controller.ts:9 | only falsy fields are refused | amount −1.0, price −500, min limit 1000 with no max limit: accepted, max limit 500 | amount and price positive, and 0 ≤ min ≤ max | not executed | OfferController.NegativeOfferAccepted | OfferController.BuildOfferChecked |

Intended rules that the code does not enforce, and that the model therefore does not enforce either outside the corrected members:
- **Offer creation.** An offer's amount and price are positive, and its minimum limit does not exceed its maximum. The code refuses only falsy values (third finding).
- **Exhausted offers.** An exhausted offer cannot be matched. The code never checks the status (first finding).
- **Consumption.** Taking BCH from an offer is atomic with creating the trade, and a lost race is answered with a conflict. The code makes two separate writes and has no conflict answer. The model makes them one after the other and has no 409.

## Left out

- **Joins with `users`.** The model leaves out the e-mail columns of the listings and of `getTrade`. The `users!inner` join of `getOffers` and `getOffer` would drop an offer whose owner row is missing; the model assumes every owner exists. For the same reason, `getTrade`'s access check through the joined `buyer.id`/`seller.id` is modelled on `buyer_id`/`seller_id`.
- **Query-string parsing.** `parseInt` of `page` and `limit`, and the NaN it yields for non-numeric text, are not modelled: the parameters are integers or absent. Request fields of the wrong JSON type are not modelled either, for example an amount sent as a string.
- **Negative or inverted windows.** `range(start, end)` with a negative start or with end < start is modelled as the clipped window of existing positions, which may be empty. The store's own behaviour in those cases is not part of this model.
- InitiateTrade: a request without `amount_bch` is not modelled, because the amount is a number here. In the source `undefined > offer.amount_bch` is false, so such a request passes every check and reaches the insert with a NaN fiat amount.
- ToLower: lowers ASCII letters only, while `toLowerCase()` lowers every script. This does not change which currencies are accepted, since the price keys are ASCII and no non-ASCII character lowers to one of their letters.
- **Price-record lookup.** `prices[fiat_currency.toLowerCase()]` is modelled for the record's own keys only. JavaScript prototype keys such as "constructor" are not modelled.
- **Store defaults.** Columns filled by the store's defaults are written out by the model:
  - offer status `active`;
  - invoice status `pending`;
  - a new wallet's balance 0;
  - a transaction's confirmations 0;
  - `created_at` equal to the `now` of the call.
  
  All tables draw their ids from one counter.
- **Store failures.** Store errors, the 500 answers they lead to, and the ignored results of the wallet and offer writes are not modelled: every write succeeds. This includes `getAddress`'s `newWallet || { address }` fallback.
- **Atomicity and concurrency.** The trade insert and the offer update are two separate writes. The model runs them one after the other, so races between requests are out of scope.
- **Floating point.** JavaScript numbers are reals, so rounding in `amount × price` and `amount_fiat / price` is not modelled.
- **I/O and randomness.** The price feed's HTTP request and its timeout become the `FetchOutcome` parameter. The clock read after a successful fetch is its `completedAt`. `Math.random()` becomes supplied draws in [0, 1). The `demo_…` and `withdraw_…` transaction ids become a supplied `txid`.
- **Other source files.** `src/lib/services/bch.service.ts` `getBalance` and `sendTransaction` return random values with no stated contract, and are not part of this model. The chat socket, the authentication middleware, the route wiring and the UI are not part of this model either.
