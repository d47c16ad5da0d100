/** The Express offer controller: creating an offer from a request body,
    the paginated listing of active offers, fetching one offer, and the
    owner-only delete. */
module OfferController {
  import opened Common
  import opened Schema
  import opened Listing
  import Db
  import TradeController

  /** The fields of a create request; an absent or null field is `None`. */
  datatype OfferRequest = OfferRequest(
    side: Option<string>,
    amountBch: Option<real>,
    pricePerBch: Option<real>,
    fiatCurrency: Option<string>,
    paymentMethod: Option<string>,
    minLimit: Option<real>,
    maxLimit: Option<real>)

  /** One of the five required fields is falsy. */
  predicate MissingRequired(req: OfferRequest) {
    || FalsyText(req.side)
    || FalsyNumber(req.amountBch)
    || FalsyNumber(req.pricePerBch)
    || FalsyText(req.fiatCurrency)
    || FalsyText(req.paymentMethod)
  }

  /** The row `createOffer` inserts for `ownerId`, before the store assigns
      its id. Only falsiness is checked: a negative amount or price passes.
      The store's default status for a new offer is active. */
  function BuildOffer(req: OfferRequest, ownerId: UserId, now: int): (r: Result<Offer>)
    ensures r.Err? <==> MissingRequired(req)
    ensures r.Err? ==> r.error == BadRequest("Missing required fields")
    ensures r.Ok? ==>
      && r.value.userId == ownerId && r.value.status == Active && r.value.createdAt == now
      && Some(r.value.side) == req.side && r.value.side != ""
      && Some(r.value.amountBch) == req.amountBch && r.value.amountBch != 0.0
      && Some(r.value.pricePerBch) == req.pricePerBch && r.value.pricePerBch != 0.0
      && Some(r.value.fiatCurrency) == req.fiatCurrency && r.value.fiatCurrency != ""
      && Some(r.value.paymentMethod) == req.paymentMethod && r.value.paymentMethod != ""
    ensures r.Ok? ==> (if FalsyNumber(req.minLimit) then r.value.minLimit == 0.0 else Some(r.value.minLimit) == req.minLimit)
    ensures r.Ok? ==>
      (if FalsyNumber(req.maxLimit) then r.value.maxLimit == r.value.amountBch * r.value.pricePerBch
       else Some(r.value.maxLimit) == req.maxLimit)
  {
    if MissingRequired(req) then Err(BadRequest("Missing required fields"))
    else
      var amount := req.amountBch.value;
      var price := req.pricePerBch.value;
      Ok(Offer(0, ownerId, req.side.value, amount, price, req.fiatCurrency.value, req.paymentMethod.value,
               OrNumber(req.minLimit, 0.0), OrNumber(req.maxLimit, amount * price), Active, now))
  }

  /** Any other user can open a trade for the whole of a freshly created
      offer with a positive amount, and it is bought from or sold to its
      creator according to its side. */
  lemma CreatedOfferTradeable(req: OfferRequest, ownerId: UserId, now: int, otherId: UserId)
    requires BuildOffer(req, ownerId, now).Ok? && otherId != ownerId
    ensures var o := BuildOffer(req, ownerId, now).value;
      TradeController.CheckInitiate(Some(o), otherId, o.amountBch).Ok?
  {
  }

  /** `createOffer`: answers the id of the inserted offer. */
  method CreateOffer(db: Db.Store, ownerId: UserId, req: OfferRequest, now: int) returns (r: Result<Id>)
    requires db.Valid()
    modifies db
    ensures db.Valid()
    ensures r.Err? <==> MissingRequired(req)
    ensures r.Err? ==> r.error == BadRequest("Missing required fields") && db.State() == old(db.State())
    ensures r.Ok? ==> r.value == old(db.nextId) && r.value !in old(db.offers)
    ensures r.Ok? ==> db.State() == old(db.State()).(
      offers := old(db.offers)[r.value := BuildOffer(req, ownerId, now).value.(id := r.value)],
      nextId := r.value + 1)
  {
    var row := BuildOffer(req, ownerId, now);
    if row.Err? {
      return Err(row.error);
    }
    var id := db.InsertOffer(row.value);
    r := Ok(id);
  }

  /** The conditions of the listing query: active, and of the requested
      side and currency when those query parameters are truthy. */
  predicate Matches(o: Offer, side: Option<string>, fiat: Option<string>) {
    && o.status == Active
    && (FalsyText(side) || o.side == side.value)
    && (FalsyText(fiat) || o.fiatCurrency == fiat.value)
  }

  /** Every offer the listing query selects, each once, newest first,
      before the window is cut out. */
  function MatchingOffers(s: Db.Snapshot, side: Option<string>, fiat: Option<string>): (r: seq<Offer>)
    requires Db.WellFormed(s)
    ensures forall o :: multiset(r)[o] == if o in s.offers.Values && Matches(o, side, fiat) then 1 else 0
    ensures |r| == |set o | o in s.offers.Values && Matches(o, side, fiat)|
    ensures forall o :: o in r <==> o in s.offers.Values && Matches(o, side, fiat)
    ensures forall i, j :: 0 <= i < j < |r| ==> r[i].id != r[j].id
    ensures Descending(r, OfferCreated)
  {
    var r := Query(s.offers, s.nextId, (o: Offer) => o.id, (o: Offer) => Matches(o, side, fiat), OfferCreated);
    CountOnce(r, set o | o in s.offers.Values && Matches(o, side, fiat));
    r
  }

  /** `page` and `limit` default to 1 and 20 when absent. */
  const DefaultPage := 1
  const DefaultLimit := 20

  datatype OfferPage = OfferPage(offers: seq<Offer>, total: nat, page: int)

  /** The inclusive window `range(start, end)` of the listing query. */
  function PageStart(page: int, limit: int): (start: int)
    ensures page >= 1 && limit >= 0 ==> start >= 0
  {
    (page - 1) * limit
  }
  function PageEnd(page: int, limit: int): int { PageStart(page, limit) + limit - 1 }

  /** Page `page` of `rows`, `limit` rows to a page: at most `limit` rows,
      taken in order from the page's first position on. */
  function Paginate<T>(rows: seq<T>, page: int, limit: int): (r: seq<T>)
    ensures |r| <= if limit < 0 then 0 else limit
    ensures forall j :: 0 <= j < |r| ==>
      Floor0(PageStart(page, limit)) + j < |rows| && r[j] == rows[Floor0(PageStart(page, limit)) + j]
    ensures forall i :: 0 <= i < |rows| && PageStart(page, limit) <= i <= PageEnd(page, limit) ==>
      i - Floor0(PageStart(page, limit)) < |r| && r[i - Floor0(PageStart(page, limit))] == rows[i]
  {
    var start := PageStart(page, limit);
    assert PageEnd(page, limit) - start + 1 == limit;
    Range(rows, start, PageEnd(page, limit))
  }

  /** `getOffers`: one page of the matching offers, the number of all
      matching offers, and the page number used. */
  function GetOffers(s: Db.Snapshot, side: Option<string>, fiat: Option<string>,
                     page: Option<int>, limit: Option<int>): (r: OfferPage)
    requires Db.WellFormed(s)
    ensures forall o :: o in r.offers ==> o in s.offers.Values && Matches(o, side, fiat)
    ensures Descending(r.offers, OfferCreated)
    ensures r.total == |MatchingOffers(s, side, fiat)| == |set o | o in s.offers.Values && Matches(o, side, fiat)|
    ensures r.page == if page.Some? then page.value else DefaultPage
    ensures r.offers == Paginate(MatchingOffers(s, side, fiat), r.page, if limit.Some? then limit.value else DefaultLimit)
  {
    var p := if page.Some? then page.value else DefaultPage;
    var l := if limit.Some? then limit.value else DefaultLimit;
    var matching := MatchingOffers(s, side, fiat);
    RangeKeepsOrder(matching, PageStart(p, l), PageEnd(p, l), OfferCreated);
    OfferPage(Paginate(matching, p, l), |matching|, p)
  }

  /** With the default limit, a page holds at most 20 offers. */
  lemma DefaultPageSize(s: Db.Snapshot, side: Option<string>, fiat: Option<string>, page: Option<int>)
    requires Db.WellFormed(s)
    ensures |GetOffers(s, side, fiat, page, None).offers| <= 20
  {
  }

  /** With a positive limit, row `k` of page `page` is the row at position
      `(page - 1) * limit + k`, whenever that position exists. */
  lemma PaginateCovers<T>(rows: seq<T>, page: int, limit: int, k: int)
    requires page >= 1 && 0 <= k < limit && PageStart(page, limit) + k < |rows|
    ensures k < |Paginate(rows, page, limit)|
    ensures Paginate(rows, page, limit)[k] == rows[PageStart(page, limit) + k]
  {
    var start := PageStart(page, limit);
    assert Floor0(start) == start;
    assert start <= start + k <= PageEnd(page, limit);
  }

  /** Every matching offer is listed on the page its position falls in, at
      the place its position says: pages of `limit` offers tile the list. */
  lemma EveryOfferOnItsPage(s: Db.Snapshot, side: Option<string>, fiat: Option<string>, page: int, limit: int, k: int)
    requires Db.WellFormed(s) && page >= 1 && 0 <= k < limit
    requires PageStart(page, limit) + k < |MatchingOffers(s, side, fiat)|
    ensures var r := GetOffers(s, side, fiat, Some(page), Some(limit));
      k < |r.offers| && r.offers[k] == MatchingOffers(s, side, fiat)[PageStart(page, limit) + k]
  {
    var matching := MatchingOffers(s, side, fiat);
    var r := GetOffers(s, side, fiat, Some(page), Some(limit));
    assert r.offers == Paginate(matching, page, limit);
    PaginateCovers(matching, page, limit, k);
  }

  /** `getOffer`: whatever its status. */
  function GetOffer(s: Db.Snapshot, id: Id): (r: Result<Offer>)
    ensures r.Err? <==> id !in s.offers
    ensures r.Err? ==> r.error == NotFound("Offer not found")
    ensures r.Ok? ==> r.value == s.offers[id]
  {
    if id in s.offers then Ok(s.offers[id]) else Err(NotFound("Offer not found"))
  }

  /** The checks `deleteOffer` makes before deleting. */
  function CheckDelete(offer: Option<Offer>, requesterId: UserId): (r: Outcome)
    ensures offer.None? ==> r == Fail(NotFound("Offer not found"))
    ensures offer.Some? && offer.value.userId != requesterId ==> r == Fail(Forbidden("Not authorized"))
    ensures r.Pass? <==> offer.Some? && offer.value.userId == requesterId
  {
    match offer
    case None => Fail(NotFound("Offer not found"))
    case Some(o) => if o.userId != requesterId then Fail(Forbidden("Not authorized")) else Pass
  }

  /** `deleteOffer` */
  method DeleteOffer(db: Db.Store, id: Id, requesterId: UserId) returns (r: Outcome)
    requires db.Valid()
    modifies db
    ensures db.Valid()
    ensures r == CheckDelete(Get(old(db.offers), id), requesterId)
    ensures r.Fail? ==> db.State() == old(db.State())
    ensures r.Pass? ==> db.State() == old(db.State()).(offers := old(db.offers) - {id})
  {
    if id !in db.offers {
      return Fail(NotFound("Offer not found"));
    }
    if db.offers[id].userId != requesterId {
      return Fail(Forbidden("Not authorized"));
    }
    db.DeleteOffer(id);
    r := Pass;
  }

  /** After a successful delete the offer is gone, and every other offer
      can still be fetched unchanged. */
  lemma DeletedOfferGone(s: Db.Snapshot, id: Id, requesterId: UserId, other: Id)
    requires CheckDelete(Get(s.offers, id), requesterId).Pass? && other != id
    ensures GetOffer(s.(offers := s.offers - {id}), id).Err?
    ensures GetOffer(s.(offers := s.offers - {id}), other) == GetOffer(s, other)
  {
  }

  // ---------------------------------------------------------------------
  // The rules created offers are meant to keep, which creation does not check

  /** The controller admits offers with a negative amount and price, and a
      minimum limit above the maximum. */
  lemma NegativeOfferAccepted(ownerId: UserId, now: int)
    ensures var r := BuildOffer(OfferRequest(Some("sell"), Some(-1.0), Some(-500.0), Some("USD"), Some("UPI"),
                                             Some(1000.0), None), ownerId, now);
      r.Ok? && r.value.amountBch < 0.0 && r.value.pricePerBch < 0.0 && r.value.minLimit > r.value.maxLimit
  {
    var req := OfferRequest(Some("sell"), Some(-1.0), Some(-500.0), Some("USD"), Some("UPI"), Some(1000.0), None);
    assert !MissingRequired(req);
  }

  /** Creation that refuses a non-positive amount or price and limits that
      are negative or out of order. */
  function BuildOfferChecked(req: OfferRequest, ownerId: UserId, now: int): (r: Result<Offer>)
    ensures r.Ok? ==> r == BuildOffer(req, ownerId, now)
    ensures r.Ok? ==> r.value.amountBch > 0.0 && r.value.pricePerBch > 0.0
    ensures r.Ok? ==> 0.0 <= r.value.minLimit <= r.value.maxLimit
    ensures BuildOffer(req, ownerId, now).Err? ==> r == BuildOffer(req, ownerId, now)
  {
    var r := BuildOffer(req, ownerId, now);
    if r.Err? then r
    else if r.value.amountBch <= 0.0 || r.value.pricePerBch <= 0.0 then Err(BadRequest("Amount and price must be positive"))
    else if !(0.0 <= r.value.minLimit <= r.value.maxLimit) then Err(BadRequest("Invalid limits"))
    else r
  }

  /** The checked creation refuses exactly the offers that break those
      rules, and so keeps every well-formed request. */
  lemma BuildOfferCheckedExact(req: OfferRequest, ownerId: UserId, now: int)
    requires BuildOffer(req, ownerId, now).Ok?
    ensures var o := BuildOffer(req, ownerId, now).value;
      BuildOfferChecked(req, ownerId, now).Ok? <==>
      o.amountBch > 0.0 && o.pricePerBch > 0.0 && 0.0 <= o.minLimit <= o.maxLimit
  {
  }
}
