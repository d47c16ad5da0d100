/** The Express trade controller: opening a trade against an offer (which
    draws the traded amount from the offer), listing and fetching a user's
    trades, moving a trade along its status graph, and the seller's release
    of the escrowed BCH. */
module TradeController {
  import opened Common
  import opened Schema
  import opened Listing
  import Db
  import BchService

  // ---------------------------------------------------------------------
  // The status graph

  /** The `validTransitions` table; a status without an entry (completed,
      cancelled) has no successor. */
  function NextStatuses(s: TradeStatus): seq<TradeStatus> {
    match s
    case Initiated => [Funded, Cancelled]
    case Funded => [Paid, Cancelled]
    case Paid => [Completed, Disputed]
    case Disputed => [Completed, Cancelled]
    case Completed => []
    case Cancelled => []
  }

  predicate CanTransition(from: TradeStatus, to: TradeStatus) {
    to in NextStatuses(from)
  }

  predicate IsTerminal(s: TradeStatus) {
    s == Completed || s == Cancelled
  }

  /** How far along its lifecycle a trade in status `s` is. */
  function Stage(s: TradeStatus): nat {
    match s
    case Initiated => 0
    case Funded => 1
    case Paid => 2
    case Disputed => 3
    case Completed => 4
    case Cancelled => 4
  }

  /** Every edge of the table moves strictly forward, so there are no self-loops. */
  lemma TransitionAdvances(from: TradeStatus, to: TradeStatus)
    requires CanTransition(from, to)
    ensures Stage(from) < Stage(to) && from != to
  {
  }

  /** Completed and cancelled are exactly the statuses with no way out. */
  lemma TerminalIffNoSuccessor(s: TradeStatus)
    ensures IsTerminal(s) <==> forall t :: !CanTransition(s, t)
  {
    if !IsTerminal(s) {
      assert CanTransition(s, NextStatuses(s)[0]);
    }
  }

  /** A sequence of statuses each reached from the one before by one edge. */
  ghost predicate IsRun(path: seq<TradeStatus>) {
    forall i :: 0 <= i < |path| - 1 ==> CanTransition(path[i], path[i + 1])
  }

  lemma {:induction false} RunAdvances(path: seq<TradeStatus>)
    requires IsRun(path) && path != []
    ensures Stage(path[|path| - 1]) >= Stage(path[0]) + |path| - 1
    decreases |path|
  {
    if |path| > 1 {
      var prefix := path[..|path| - 1];
      assert IsRun(prefix) by {
        forall i | 0 <= i < |prefix| - 1 ensures CanTransition(prefix[i], prefix[i + 1]) {
          assert CanTransition(path[i], path[i + 1]);
        }
      }
      RunAdvances(prefix);
      TransitionAdvances(path[|path| - 2], path[|path| - 1]);
    }
  }

  /** A trade passes through at most five statuses, and never revisits one. */
  lemma RunsAreShortAndSimple(path: seq<TradeStatus>)
    requires IsRun(path)
    ensures |path| <= 5
    ensures forall i, j :: 0 <= i < j < |path| ==> path[i] != path[j]
  {
    if path != [] {
      RunAdvances(path);
    }
    forall i, j | 0 <= i < j < |path| ensures path[i] != path[j] {
      var segment := path[i..j + 1];
      assert IsRun(segment) by {
        forall k | 0 <= k < |segment| - 1 ensures CanTransition(segment[k], segment[k + 1]) {
          assert CanTransition(path[i + k], path[i + k + 1]);
        }
      }
      RunAdvances(segment);
    }
  }

  /** A run from `initiated` to each status: every status is reachable. */
  function LifecycleTo(s: TradeStatus): (path: seq<TradeStatus>)
    ensures path != [] && IsRun(path) && path[0] == Initiated && path[|path| - 1] == s
  {
    match s
    case Initiated => [Initiated]
    case Funded => [Initiated, Funded]
    case Paid => [Initiated, Funded, Paid]
    case Completed => [Initiated, Funded, Paid, Completed]
    case Disputed => [Initiated, Funded, Paid, Disputed]
    case Cancelled => [Initiated, Cancelled]
  }

  /** The status as stored in the `status` column and sent by clients. */
  function StatusName(s: TradeStatus): string {
    match s
    case Initiated => "initiated"
    case Funded => "funded"
    case Paid => "paid"
    case Completed => "completed"
    case Disputed => "disputed"
    case Cancelled => "cancelled"
  }

  function ParseStatus(name: string): (r: Option<TradeStatus>)
    ensures r.Some? ==> StatusName(r.value) == name
    ensures r.None? ==> forall s :: StatusName(s) != name
  {
    if name == "initiated" then Some(Initiated)
    else if name == "funded" then Some(Funded)
    else if name == "paid" then Some(Paid)
    else if name == "completed" then Some(Completed)
    else if name == "disputed" then Some(Disputed)
    else if name == "cancelled" then Some(Cancelled)
    else None
  }

  // ---------------------------------------------------------------------
  // Opening a trade

  datatype Roles = Roles(buyerId: UserId, sellerId: UserId)

  /** The owner of a "sell" offer sells to the initiator; the owner of any
      other offer buys from the initiator. */
  function DeriveRoles(side: string, ownerId: UserId, initiatorId: UserId): (r: Roles)
    ensures multiset{r.buyerId, r.sellerId} == multiset{ownerId, initiatorId}
    ensures r.buyerId != r.sellerId <==> ownerId != initiatorId
    ensures side == "sell" ==> r.sellerId == ownerId
    ensures side != "sell" ==> r.buyerId == ownerId
  {
    if side == "sell" then Roles(initiatorId, ownerId) else Roles(ownerId, initiatorId)
  }

  /** The checks `initiateTrade` makes, in order, before writing anything. */
  function CheckInitiate(offer: Option<Offer>, initiatorId: UserId, amountBch: real): (r: Result<Roles>)
    ensures offer.None? ==> r == Err(NotFound("Offer not found"))
    ensures offer.Some? && offer.value.userId == initiatorId ==> r == Err(BadRequest("Cannot trade with yourself"))
    ensures offer.Some? && offer.value.userId != initiatorId && amountBch > offer.value.amountBch ==>
      r == Err(BadRequest("Amount exceeds available"))
    ensures r.Ok? <==> offer.Some? && offer.value.userId != initiatorId && amountBch <= offer.value.amountBch
    ensures r.Ok? ==> r.value == DeriveRoles(offer.value.side, offer.value.userId, initiatorId)
    ensures r.Ok? ==> r.value.buyerId != r.value.sellerId
  {
    match offer
    case None => Err(NotFound("Offer not found"))
    case Some(o) =>
      if o.userId == initiatorId then Err(BadRequest("Cannot trade with yourself"))
      else if amountBch > o.amountBch then Err(BadRequest("Amount exceeds available"))
      else Ok(DeriveRoles(o.side, o.userId, initiatorId))
  }

  /** The offer after `amountBch` has been drawn from it: when nothing would
      remain it is only marked inactive, its amount left as it was;
      otherwise its amount is reduced and its status kept. */
  function ConsumeOffer(o: Offer, amountBch: real): (r: Offer)
    ensures r.(amountBch := o.amountBch, status := o.status) == o
    ensures o.amountBch - amountBch <= 0.0 ==> r.status == Inactive && r.amountBch == o.amountBch
    ensures o.amountBch - amountBch > 0.0 ==> r.status == o.status && r.amountBch == o.amountBch - amountBch
  {
    var remaining := o.amountBch - amountBch;
    if remaining <= 0.0 then o.(status := Inactive) else o.(amountBch := remaining)
  }

  /** An offer that is still active after a trade has something left to trade. */
  lemma ActiveAfterConsumeHasStock(o: Offer, amountBch: real)
    requires o.status == Active && ConsumeOffer(o, amountBch).status == Active
    ensures ConsumeOffer(o, amountBch).amountBch > 0.0
  {
  }

  /** What `initiateTrade` answers on success. */
  datatype TradeReceipt = TradeReceipt(id: Id, escrowAddress: string, status: TradeStatus)

  /** The trade row `initiateTrade` inserts: the fiat amount at the offer's
      price, the offer's currency and payment method, status initiated. */
  function OpenedTrade(id: Id, offer: Offer, roles: Roles, amountBch: real, escrowAddress: string, now: int): (t: Trade)
    ensures t.id == id && t.offerId == offer.id && t.status == Initiated
    ensures t.amountBch == amountBch && t.amountFiat == amountBch * offer.pricePerBch
    ensures t.fiatCurrency == offer.fiatCurrency && t.paymentMethod == offer.paymentMethod
    ensures t.buyerId == roles.buyerId && t.sellerId == roles.sellerId && t.escrowAddress == escrowAddress
    ensures t.createdAt == now && t.updatedAt == now
  {
    Trade(id, offer.id, roles.buyerId, roles.sellerId, amountBch, amountBch * offer.pricePerBch,
          offer.fiatCurrency, offer.paymentMethod, escrowAddress, Initiated, now, now)
  }

  /** `initiateTrade`: read the offer, validate, insert the trade, then
      update the offer. The two writes are separate, as in the source. */
  method InitiateTrade(db: Db.Store, initiatorId: UserId, offerId: Id, amountBch: real,
                       escrowDraws: seq<real>, now: int)
    returns (r: Result<TradeReceipt>)
    requires db.Valid()
    requires BchService.BodyDigits <= |escrowDraws| && AllDraws(escrowDraws)
    modifies db
    ensures db.Valid()
    ensures r.Ok? <==> CheckInitiate(Get(old(db.offers), offerId), initiatorId, amountBch).Ok?
    ensures r.Err? ==> r.error == CheckInitiate(Get(old(db.offers), offerId), initiatorId, amountBch).error
    ensures r.Err? ==> db.State() == old(db.State())
    ensures r.Ok? ==> r.value.id == old(db.nextId) && r.value.status == Initiated
    ensures r.Ok? ==> |r.value.escrowAddress| == 50 && BchService.ValidateAddress(r.value.escrowAddress)
    ensures r.Ok? ==> db.State() == old(db.State()).(
      trades := old(db.trades)[r.value.id := OpenedTrade(r.value.id, old(db.offers)[offerId],
                  CheckInitiate(Get(old(db.offers), offerId), initiatorId, amountBch).value,
                  amountBch, r.value.escrowAddress, now)],
      offers := old(db.offers)[offerId := ConsumeOffer(old(db.offers)[offerId], amountBch)],
      nextId := r.value.id + 1)
  {
    if offerId !in db.offers {
      return Err(NotFound("Offer not found"));
    }
    var offer := db.offers[offerId];
    if offer.userId == initiatorId {
      return Err(BadRequest("Cannot trade with yourself"));
    }
    if amountBch > offer.amountBch {
      return Err(BadRequest("Amount exceeds available"));
    }
    var roles := DeriveRoles(offer.side, offer.userId, initiatorId);
    var escrowAddress := BchService.GenerateAddress(escrowDraws);
    var row := OpenedTrade(0, offer, roles, amountBch, escrowAddress, now);
    var id := db.InsertTrade(row);
    assert row.(id := id) == OpenedTrade(id, offer, roles, amountBch, escrowAddress, now);
    assert offer.id == offerId;
    db.UpdateOffer(ConsumeOffer(offer, amountBch));
    r := Ok(TradeReceipt(id, escrowAddress, Initiated));
    assert CheckInitiate(Get(old(db.offers), offerId), initiatorId, amountBch).value == roles;
  }

  // ---------------------------------------------------------------------
  // Reading trades

  predicate IsParticipant(t: Trade, userId: UserId) {
    t.buyerId == userId || t.sellerId == userId
  }

  /** `getTrades`: every trade the user buys or sells in, each once, newest first. */
  function GetTrades(s: Db.Snapshot, userId: UserId): (r: seq<Trade>)
    requires Db.WellFormed(s)
    ensures forall t :: multiset(r)[t] == if t in s.trades.Values && IsParticipant(t, userId) then 1 else 0
    ensures forall t :: t in r <==> t in s.trades.Values && IsParticipant(t, userId)
    ensures forall i, j :: 0 <= i < j < |r| ==> r[i].id != r[j].id
    ensures Descending(r, TradeCreated)
  {
    Query(s.trades, s.nextId, (t: Trade) => t.id, (t: Trade) => IsParticipant(t, userId), TradeCreated)
  }

  /** The messages of a trade, each once, oldest first. */
  function TradeMessages(s: Db.Snapshot, tradeId: Id): (r: seq<Message>)
    requires Db.WellFormed(s)
    ensures forall m :: multiset(r)[m] == if m in s.messages.Values && m.tradeId == tradeId then 1 else 0
    ensures forall m :: m in r <==> m in s.messages.Values && m.tradeId == tradeId
    ensures forall i, j :: 0 <= i < j < |r| ==> r[i].id != r[j].id
    ensures forall i, j :: 0 <= i < j < |r| ==> r[i].createdAt <= r[j].createdAt
  {
    var r := Query(s.messages, s.nextId, (m: Message) => m.id, (m: Message) => m.tradeId == tradeId, MessageAge);
    OldestFirst(r);
    r
  }

  /** Descending by `MessageAge` is ascending by creation time. */
  lemma OldestFirst(r: seq<Message>)
    requires Descending(r, MessageAge)
    ensures forall i, j :: 0 <= i < j < |r| ==> r[i].createdAt <= r[j].createdAt
  {
    forall i, j | 0 <= i < j < |r| ensures r[i].createdAt <= r[j].createdAt {
      assert MessageAge(r[i]) >= MessageAge(r[j]);
    }
  }

  datatype TradeDetail = TradeDetail(trade: Trade, messages: seq<Message>)

  /** `getTrade`: a trade with its messages, for its buyer or seller only. */
  function GetTrade(s: Db.Snapshot, id: Id, requesterId: UserId): (r: Result<TradeDetail>)
    requires Db.WellFormed(s)
    ensures id !in s.trades ==> r == Err(NotFound("Trade not found"))
    ensures id in s.trades && !IsParticipant(s.trades[id], requesterId) ==> r == Err(Forbidden("Not authorized"))
    ensures r.Ok? <==> id in s.trades && IsParticipant(s.trades[id], requesterId)
    ensures r.Ok? ==> r.value.trade == s.trades[id]
    ensures r.Ok? ==> r.value.messages == TradeMessages(s, id)
    ensures r.Ok? ==> forall m :: m in r.value.messages <==> m in s.messages.Values && m.tradeId == id
    ensures r.Ok? ==> forall i, j :: 0 <= i < j < |r.value.messages| ==>
      r.value.messages[i].createdAt <= r.value.messages[j].createdAt
  {
    if id !in s.trades then Err(NotFound("Trade not found"))
    else if !IsParticipant(s.trades[id], requesterId) then Err(Forbidden("Not authorized"))
    else Ok(TradeDetail(s.trades[id], TradeMessages(s, id)))
  }

  /** A trade just opened shows in the listings of both its parties, and
      either of them can fetch it. */
  lemma OpenedTradeVisibleToBoth(s: Db.Snapshot, offer: Offer, roles: Roles, amountBch: real,
                                 escrowAddress: string, now: int, userId: UserId)
    requires Db.WellFormed(s) && (userId == roles.buyerId || userId == roles.sellerId)
    ensures var t := OpenedTrade(s.nextId, offer, roles, amountBch, escrowAddress, now);
      var after := s.(trades := s.trades[s.nextId := t], nextId := s.nextId + 1);
      Db.WellFormed(after) && t in GetTrades(after, userId) && GetTrade(after, s.nextId, userId) == Ok(TradeDetail(t, TradeMessages(after, s.nextId)))
  {
    var t := OpenedTrade(s.nextId, offer, roles, amountBch, escrowAddress, now);
    var after := s.(trades := s.trades[s.nextId := t], nextId := s.nextId + 1);
    assert t == after.trades[s.nextId];
  }

  // ---------------------------------------------------------------------
  // Moving a trade along the graph

  /** The checks `updateTradeStatus` makes once the trade is found. */
  function CheckStatusUpdate(t: Trade, requesterId: UserId, requested: string): (r: Result<TradeStatus>)
    ensures !IsParticipant(t, requesterId) ==> r == Err(Forbidden("Not authorized"))
    ensures r.Ok? <==>
      (IsParticipant(t, requesterId) && exists s :: StatusName(s) == requested && CanTransition(t.status, s))
    ensures r.Ok? ==> StatusName(r.value) == requested && CanTransition(t.status, r.value)
    ensures IsParticipant(t, requesterId) && r.Err? ==> r.error == BadRequest("Invalid status transition")
  {
    if !IsParticipant(t, requesterId) then Err(Forbidden("Not authorized"))
    else match ParseStatus(requested)
      case Some(s) => if CanTransition(t.status, s) then Ok(s) else Err(BadRequest("Invalid status transition"))
      case None => Err(BadRequest("Invalid status transition"))
  }

  /** Asking for the status a trade already has always fails. */
  lemma RepeatedStatusRejected(t: Trade, requesterId: UserId)
    ensures CheckStatusUpdate(t, requesterId, StatusName(t.status)).Err?
  {
    if CheckStatusUpdate(t, requesterId, StatusName(t.status)).Ok? {
      TransitionAdvances(t.status, t.status);
    }
  }

  /** `updateTradeStatus` */
  method UpdateTradeStatus(db: Db.Store, id: Id, requesterId: UserId, requested: string, now: int)
    returns (r: Result<TradeStatus>)
    requires db.Valid()
    modifies db
    ensures db.Valid()
    ensures id !in old(db.trades) ==> r == Err(NotFound("Trade not found"))
    ensures id in old(db.trades) ==> r == CheckStatusUpdate(old(db.trades)[id], requesterId, requested)
    ensures r.Err? ==> db.State() == old(db.State())
    ensures r.Ok? ==> db.State() == old(db.State()).(
      trades := old(db.trades)[id := old(db.trades)[id].(status := r.value, updatedAt := now)])
  {
    if id !in db.trades {
      return Err(NotFound("Trade not found"));
    }
    var t := db.trades[id];
    if t.buyerId != requesterId && t.sellerId != requesterId {
      return Err(Forbidden("Not authorized"));
    }
    var target := ParseStatus(requested);
    if target.None? || target.value !in NextStatuses(t.status) {
      return Err(BadRequest("Invalid status transition"));
    }
    db.UpdateTrade(t.(status := target.value, updatedAt := now));
    r := Ok(target.value);
  }

  /** The trade after a series of status requests, with how many succeeded. */
  function ApplyRequests(t: Trade, requests: seq<(UserId, string)>): (Trade, nat) {
    if requests == [] then (t, 0)
    else
      var (after, count) := ApplyRequests(t, requests[..|requests| - 1]);
      var (who, status) := requests[|requests| - 1];
      match CheckStatusUpdate(after, who, status)
      case Ok(s) => (after.(status := s), count + 1)
      case Err(_) => (after, count)
  }

  /** However many requests are made, a trade changes status at most four
      times, and each success moves it one stage further. */
  lemma {:induction false} AtMostFourUpdates(t: Trade, requests: seq<(UserId, string)>)
    ensures ApplyRequests(t, requests).1 <= Stage(ApplyRequests(t, requests).0.status) - Stage(t.status)
    ensures ApplyRequests(t, requests).1 <= 4
    decreases |requests|
  {
    if requests != [] {
      var (after, count) := ApplyRequests(t, requests[..|requests| - 1]);
      AtMostFourUpdates(t, requests[..|requests| - 1]);
      var (who, status) := requests[|requests| - 1];
      var check := CheckStatusUpdate(after, who, status);
      if check.Ok? {
        TransitionAdvances(after.status, check.value);
      }
    }
  }

  // ---------------------------------------------------------------------
  // Releasing the escrow

  /** The checks `releaseBCH` makes once the trade is found. */
  function CheckRelease(t: Trade, requesterId: UserId): (r: Outcome)
    ensures t.sellerId != requesterId ==> r == Fail(Forbidden("Only seller can release"))
    ensures t.sellerId == requesterId && t.status != Paid ==> r == Fail(BadRequest("Trade must be in paid status"))
    ensures r.Pass? <==> t.sellerId == requesterId && t.status == Paid
  {
    if t.sellerId != requesterId then Fail(Forbidden("Only seller can release"))
    else if t.status != Paid then Fail(BadRequest("Trade must be in paid status"))
    else Pass
  }

  /** A release is the table's paid-to-completed edge, taken by the seller:
      the seller asking for "completed" would be granted the same change. */
  lemma ReleaseIsCompletionEdge(t: Trade, requesterId: UserId)
    requires CheckRelease(t, requesterId).Pass?
    ensures CanTransition(t.status, Completed)
    ensures CheckStatusUpdate(t, requesterId, "completed") == Ok(Completed)
  {
    assert StatusName(Completed) == "completed";
  }

  /** Only the seller may release, but the buyer of a paid trade may still
      mark it completed through `updateTradeStatus`. */
  lemma BuyerCanCompleteWithoutRelease(t: Trade)
    requires t.status == Paid && t.buyerId != t.sellerId
    ensures CheckRelease(t, t.buyerId).Fail?
    ensures CheckStatusUpdate(t, t.buyerId, "completed") == Ok(Completed)
  {
    assert StatusName(Completed) == "completed";
  }

  /** A completed or cancelled trade can be neither moved nor released. */
  lemma TerminalTradesAreFrozen(t: Trade, requesterId: UserId, requested: string)
    requires IsTerminal(t.status)
    ensures CheckStatusUpdate(t, requesterId, requested).Err?
    ensures CheckRelease(t, requesterId).Fail?
  {
    TerminalIffNoSuccessor(t.status);
  }

  /** `releaseBCH`: answers the placeholder transaction id on success. */
  method ReleaseBch(db: Db.Store, id: Id, requesterId: UserId, txid: string, now: int)
    returns (r: Result<string>)
    requires db.Valid()
    modifies db
    ensures db.Valid()
    ensures id !in old(db.trades) ==> r == Err(NotFound("Trade not found"))
    ensures id in old(db.trades) ==>
      var check := CheckRelease(old(db.trades)[id], requesterId);
      (check.Fail? ==> r == Err(check.error)) && (check.Pass? ==> r == Ok(txid))
    ensures r.Err? ==> db.State() == old(db.State())
    ensures r.Ok? ==> db.State() == old(db.State()).(
      trades := old(db.trades)[id := old(db.trades)[id].(status := Completed, updatedAt := now)])
  {
    if id !in db.trades {
      return Err(NotFound("Trade not found"));
    }
    var t := db.trades[id];
    if t.sellerId != requesterId {
      return Err(Forbidden("Only seller can release"));
    }
    if t.status != Paid {
      return Err(BadRequest("Trade must be in paid status"));
    }
    db.UpdateTrade(t.(status := Completed, updatedAt := now));
    r := Ok(txid);
  }

  // ---------------------------------------------------------------------
  // Drawing on one offer repeatedly

  /** The offer after a series of `initiateTrade` calls by `initiatorId`
      with the given amounts, and the total amount of the trades accepted. */
  function TradeSeries(o: Offer, initiatorId: UserId, amounts: seq<real>): (Offer, real) {
    if amounts == [] then (o, 0.0)
    else
      var (after, total) := TradeSeries(o, initiatorId, amounts[..|amounts| - 1]);
      var a := amounts[|amounts| - 1];
      if CheckInitiate(Some(after), initiatorId, a).Ok? then (ConsumeOffer(after, a), total + a)
      else (after, total)
  }

  /** An offer drawn down to exactly nothing is marked inactive but keeps its
      amount, and `initiateTrade` does not look at the status: the same
      amount can be traded again, so twice the offer's amount is traded. */
  lemma ExhaustedOfferStaysTradeable(o: Offer, initiatorId: UserId)
    requires o.userId != initiatorId && o.amountBch > 0.0
    ensures ConsumeOffer(o, o.amountBch).status == Inactive
    ensures CheckInitiate(Some(ConsumeOffer(o, o.amountBch)), initiatorId, o.amountBch).Ok?
    ensures TradeSeries(o, initiatorId, [o.amountBch, o.amountBch]).1 == 2.0 * o.amountBch
  {
    var a := o.amountBch;
    assert [a, a][..1] == [a];
    assert [a][..0] == [];
    assert TradeSeries(o, initiatorId, [a]) == (ConsumeOffer(o, a), a);
  }

  /** No amount is checked to be positive: a negative trade grows the offer. */
  lemma NegativeTradeGrowsOffer(o: Offer, initiatorId: UserId, amountBch: real)
    requires o.userId != initiatorId && amountBch < 0.0 && o.amountBch > 0.0
    ensures CheckInitiate(Some(o), initiatorId, amountBch).Ok?
    ensures ConsumeOffer(o, amountBch).amountBch > o.amountBch
  {
  }

  /** The checks with the two missing guards: the amount must be positive
      and the offer active. */
  function CheckInitiateGuarded(offer: Option<Offer>, initiatorId: UserId, amountBch: real): (r: Result<Roles>)
    ensures r.Ok? <==> CheckInitiate(offer, initiatorId, amountBch).Ok? && amountBch > 0.0 && offer.value.status == Active
    ensures r.Ok? ==> r == CheckInitiate(offer, initiatorId, amountBch)
  {
    var check := CheckInitiate(offer, initiatorId, amountBch);
    if check.Err? then check
    else if amountBch <= 0.0 then Err(BadRequest("Invalid amount"))
    else if offer.value.status != Active then Err(BadRequest("Offer not active"))
    else check
  }

  /** Drawing with the guards in place: the offer's amount always records
      what is left, and it is marked inactive once nothing is. */
  function ConsumeOfferGuarded(o: Offer, amountBch: real): (r: Offer)
    ensures r.(amountBch := o.amountBch, status := o.status) == o
    ensures r.amountBch == o.amountBch - amountBch
    ensures r.status == if r.amountBch <= 0.0 then Inactive else o.status
  {
    var remaining := o.amountBch - amountBch;
    if remaining <= 0.0 then o.(amountBch := remaining, status := Inactive) else o.(amountBch := remaining)
  }

  function TradeSeriesGuarded(o: Offer, initiatorId: UserId, amounts: seq<real>): (Offer, real) {
    if amounts == [] then (o, 0.0)
    else
      var (after, total) := TradeSeriesGuarded(o, initiatorId, amounts[..|amounts| - 1]);
      var a := amounts[|amounts| - 1];
      if CheckInitiateGuarded(Some(after), initiatorId, a).Ok? then (ConsumeOfferGuarded(after, a), total + a)
      else (after, total)
  }

  /** With the guards, what is traded plus what is left is always what was
      offered, and neither goes negative: no series of trades, however
      long, draws more than the offer held. */
  lemma {:induction false} GuardedSeriesConserves(o: Offer, initiatorId: UserId, amounts: seq<real>)
    requires o.amountBch >= 0.0
    ensures var (after, total) := TradeSeriesGuarded(o, initiatorId, amounts);
      total + after.amountBch == o.amountBch && total >= 0.0 && after.amountBch >= 0.0
    ensures TradeSeriesGuarded(o, initiatorId, amounts).1 <= o.amountBch
    decreases |amounts|
  {
    if amounts != [] {
      GuardedSeriesConserves(o, initiatorId, amounts[..|amounts| - 1]);
    }
  }
}
