/** The Next.js `/api/trades` route: the same participant listing as the
    Express controller, and a weaker trade creation that checks only that
    the fields are present and the offer exists. */
module TradesRoute {
  import opened Common
  import opened Schema
  import Listing
  import Db
  import TradeController

  /** The escrow address every trade created here carries. */
  const MockEscrow := "mock_escrow_address"

  /** `GET`: the requester's trades, newest first; the Express listing. */
  function Get(s: Db.Snapshot, userId: UserId): (r: seq<Trade>)
    requires Db.WellFormed(s)
    ensures forall t :: multiset(r)[t] == if t in s.trades.Values && TradeController.IsParticipant(t, userId) then 1 else 0
    ensures forall t :: t in r <==> t in s.trades.Values && TradeController.IsParticipant(t, userId)
    ensures forall i, j :: 0 <= i < j < |r| ==> r[i].id != r[j].id
    ensures Listing.Descending(r, TradeCreated)
  {
    TradeController.GetTrades(s, userId)
  }

  /** The checks `POST` makes: both fields truthy (an id of 0 is falsy),
      and the offer present. Whose offer it is and how much it holds are
      not looked at. */
  function CheckPost(offerId: Option<Id>, amountBch: Option<real>, offer: Option<Offer>, userId: UserId): (r: Result<TradeController.Roles>)
    ensures offerId.None? || offerId.value == 0 || FalsyNumber(amountBch) ==> r == Err(BadRequest("Missing required fields"))
    ensures r.Ok? <==> offerId.Some? && offerId.value != 0 && !FalsyNumber(amountBch) && offer.Some?
    ensures !(offerId.None? || offerId.value == 0 || FalsyNumber(amountBch)) && offer.None? ==> r == Err(NotFound("Offer not found"))
    ensures r.Ok? ==> r.value == TradeController.DeriveRoles(offer.value.side, offer.value.userId, userId)
  {
    if offerId.None? || offerId.value == 0 || FalsyNumber(amountBch) then Err(BadRequest("Missing required fields"))
    else if offer.None? then Err(NotFound("Offer not found"))
    else Ok(TradeController.DeriveRoles(offer.value.side, offer.value.userId, userId))
  }

  /** `POST`: answers the inserted trade with status 201. The offer is not
      updated. */
  method Post(db: Db.Store, userId: UserId, offerId: Option<Id>, amountBch: Option<real>, now: int)
    returns (r: Result<Trade>, status: nat)
    requires db.Valid()
    modifies db
    ensures db.Valid()
    ensures status == if r.Ok? then 201 else r.error.Code()
    ensures var check := CheckPost(offerId, amountBch, if offerId.Some? then Common.Get(old(db.offers), offerId.value) else None, userId);
      && (r.Ok? <==> check.Ok?)
      && (r.Err? ==> r.error == check.error && db.State() == old(db.State()))
      && (r.Ok? ==>
            && r.value == TradeController.OpenedTrade(old(db.nextId), old(db.offers)[offerId.value], check.value,
                                                     amountBch.value, MockEscrow, now)
            && db.State() == old(db.State()).(trades := old(db.trades)[r.value.id := r.value], nextId := r.value.id + 1))
  {
    if offerId.None? || offerId.value == 0 || FalsyNumber(amountBch) {
      return Err(BadRequest("Missing required fields")), 400;
    }
    if offerId.value !in db.offers {
      return Err(NotFound("Offer not found")), 404;
    }
    var offer := db.offers[offerId.value];
    var roles := if offer.side == "sell" then TradeController.Roles(userId, offer.userId)
                 else TradeController.Roles(offer.userId, userId);
    var row := TradeController.OpenedTrade(0, offer, roles, amountBch.value, MockEscrow, now);
    var id := db.InsertTrade(row);
    assert offer.id == offerId.value;
    r, status := Ok(row.(id := id)), 201;
  }

  /** Whatever the Express controller accepts with a nonzero amount, this
      route accepts too, with the same buyer and seller. */
  lemma RouteAcceptsWhatControllerAccepts(offerId: Id, offer: Option<Offer>, userId: UserId, amountBch: real)
    requires offerId != 0 && amountBch != 0.0
    requires TradeController.CheckInitiate(offer, userId, amountBch).Ok?
    ensures CheckPost(Some(offerId), Some(amountBch), offer, userId) == TradeController.CheckInitiate(offer, userId, amountBch)
  {
  }

  /** The route lets an owner trade with themselves and lets anyone take
      more than the offer holds, both of which the controller refuses. */
  lemma RouteSkipsControllerChecks(offer: Offer, amountBch: real)
    requires 0.0 <= offer.amountBch < amountBch && offer.id != 0
    ensures CheckPost(Some(offer.id), Some(amountBch), Some(offer), offer.userId).Ok?
    ensures TradeController.CheckInitiate(Some(offer), offer.userId, amountBch).Err?
    ensures var roles := CheckPost(Some(offer.id), Some(amountBch), Some(offer), offer.userId).value;
      roles.buyerId == roles.sellerId
  {
  }
}
