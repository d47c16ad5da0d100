/** The Next.js `/api/offers` route: the unpaginated listing of active
    offers, and offer creation with the same validation and defaults as the
    Express controller, answered with the whole inserted row. */
module OffersRoute {
  import opened Common
  import opened Schema
  import Listing
  import Db
  import OfferController

  /** `GET`: every matching active offer, newest first, with no window. */
  function Get(s: Db.Snapshot, side: Option<string>, currency: Option<string>): (r: seq<Offer>)
    requires Db.WellFormed(s)
    ensures forall o :: multiset(r)[o] == if o in s.offers.Values && OfferController.Matches(o, side, currency) then 1 else 0
    ensures |r| == |set o | o in s.offers.Values && OfferController.Matches(o, side, currency)|
    ensures forall o :: o in r <==> o in s.offers.Values && OfferController.Matches(o, side, currency)
    ensures forall i, j :: 0 <= i < j < |r| ==> r[i].id != r[j].id
    ensures Listing.Descending(r, OfferCreated)
  {
    OfferController.MatchingOffers(s, side, currency)
  }

  /** When every match fits on one page, the route lists exactly the
      controller's first page; otherwise the first page is its prefix. */
  lemma FirstPageIsPrefix(s: Db.Snapshot, side: Option<string>, currency: Option<string>, limit: int)
    requires Db.WellFormed(s) && limit > 0
    ensures var page := OfferController.GetOffers(s, side, currency, Some(1), Some(limit)).offers;
      && page <= Get(s, side, currency)
      && (|Get(s, side, currency)| <= limit ==> page == Get(s, side, currency))
  {
    var all := Get(s, side, currency);
    var page := OfferController.GetOffers(s, side, currency, Some(1), Some(limit)).offers;
    assert OfferController.PageStart(1, limit) == 0;
    assert page == Listing.Range(all, 0, limit - 1);
  }

  /** `POST`: answers the inserted offer with status 201. */
  method Post(db: Db.Store, userId: UserId, req: OfferController.OfferRequest, now: int)
    returns (r: Result<Offer>, status: nat)
    requires db.Valid()
    modifies db
    ensures db.Valid()
    ensures status == if r.Ok? then 201 else r.error.Code()
    ensures r.Err? <==> OfferController.MissingRequired(req)
    ensures r.Err? ==> r.error == BadRequest("Missing required fields") && db.State() == old(db.State())
    ensures r.Ok? ==> r.value == OfferController.BuildOffer(req, userId, now).value.(id := old(db.nextId))
    ensures r.Ok? ==> db.State() == old(db.State()).(
      offers := old(db.offers)[r.value.id := r.value], nextId := r.value.id + 1)
  {
    var row := OfferController.BuildOffer(req, userId, now);
    if row.Err? {
      return Err(row.error), 400;
    }
    var id := db.InsertOffer(row.value);
    r, status := Ok(row.value.(id := id)), 201;
  }
}
