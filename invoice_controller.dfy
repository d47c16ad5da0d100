/** The Express invoice controller: creating an invoice priced in fiat and
    converted to BCH at the served price, listing a user's invoices, and
    the owner and public views of one invoice. */
module InvoiceController {
  import opened Common
  import opened Schema
  import opened Listing
  import Db
  import BchService
  import PriceService

  /** ASCII `toLowerCase()`. */
  function ToLower(s: string): (r: string)
    ensures |r| == |s|
    ensures forall i :: 0 <= i < |s| ==>
      r[i] == if 'A' <= s[i] <= 'Z' then (s[i] as int + 32) as char else s[i]
  {
    if s == [] then []
    else [if 'A' <= s[0] <= 'Z' then (s[0] as int + 32) as char else s[0]] + ToLower(s[1..])
  }

  /** `prices[key]` for the three keys of the price record. */
  function PriceFor(prices: PriceService.Prices, key: string): (r: Option<real>)
    ensures r.Some? <==> key in {"usd", "inr", "eur"}
    ensures key == "usd" ==> r == Some(prices.usd)
    ensures key == "inr" ==> r == Some(prices.inr)
    ensures key == "eur" ==> r == Some(prices.eur)
  {
    if key == "usd" then Some(prices.usd)
    else if key == "inr" then Some(prices.inr)
    else if key == "eur" then Some(prices.eur)
    else None
  }

  /** The fields of a create request. */
  datatype InvoiceRequest = InvoiceRequest(
    title: Option<string>,
    description: Option<string>,
    amountFiat: Option<real>,
    fiatCurrency: Option<string>)

  predicate MissingRequired(req: InvoiceRequest) {
    FalsyText(req.title) || FalsyNumber(req.amountFiat) || FalsyText(req.fiatCurrency)
  }

  /** The BCH amount of an invoice at the served prices: the fiat amount
      divided by the price under the lower-cased currency, refused when
      there is no such price or it is zero. */
  function ConvertToBch(prices: PriceService.Prices, fiatCurrency: string, amountFiat: real): (r: Result<real>)
    ensures r.Err? <==> PriceFor(prices, ToLower(fiatCurrency)) in {None, Some(0.0)}
    ensures r.Err? ==> r.error == BadRequest("Invalid currency")
    ensures r.Ok? ==> r.value * PriceFor(prices, ToLower(fiatCurrency)).value == amountFiat
  {
    var price := PriceFor(prices, ToLower(fiatCurrency));
    if price.None? || price.value == 0.0 then Err(BadRequest("Invalid currency"))
    else
      var amountBch := amountFiat / price.value;
      assert amountBch * price.value == amountFiat;
      Ok(amountBch)
  }

  /** Lowering twice is lowering once. */
  lemma ToLowerIdempotent(s: string)
    ensures ToLower(ToLower(s)) == ToLower(s)
  {
    var once := ToLower(s);
    forall i | 0 <= i < |once| ensures ToLower(once)[i] == once[i] {
      assert !('A' <= once[i] <= 'Z');
    }
  }

  /** The currency is matched without regard to ASCII case: any spelling
      converts as its lower-case form does, so "USD", "Usd" and "usd" agree. */
  lemma CurrencyCaseInsensitive(prices: PriceService.Prices, fiatCurrency: string, amountFiat: real)
    ensures ConvertToBch(prices, fiatCurrency, amountFiat) == ConvertToBch(prices, ToLower(fiatCurrency), amountFiat)
    ensures ConvertToBch(prices, "USD", amountFiat) == ConvertToBch(prices, "usd", amountFiat)
  {
    ToLowerIdempotent(fiatCurrency);
    assert ToLower("USD") == "usd";
  }

  /** A currency whose lower-case form is not a key of the price record is
      refused, whatever the prices. */
  lemma UnknownCurrencyRefused(prices: PriceService.Prices, fiatCurrency: string, amountFiat: real)
    requires ToLower(fiatCurrency) !in {"usd", "inr", "eur"}
    ensures ConvertToBch(prices, fiatCurrency, amountFiat) == Err(BadRequest("Invalid currency"))
  {
  }

  /** What `createInvoice` answers on success. */
  datatype InvoiceReceipt = InvoiceReceipt(id: Id, paymentAddress: string, amountBch: real, status: InvoiceStatus)

  /** The row `createInvoice` inserts: an empty description is stored as
      null, and the invoice is pending and unpaid. */
  function NewInvoice(id: Id, userId: UserId, req: InvoiceRequest, amountBch: real, address: string, now: int): (v: Invoice)
    requires !MissingRequired(req)
    ensures v.id == id && v.userId == userId && v.status == Pending && v.paidAt.None? && v.createdAt == now
    ensures Some(v.title) == req.title && Some(v.amountFiat) == req.amountFiat && Some(v.fiatCurrency) == req.fiatCurrency
    ensures v.description == if FalsyText(req.description) then None else req.description
    ensures v.amountBch == amountBch && v.paymentAddress == address
  {
    Invoice(id, userId, req.title.value, if FalsyText(req.description) then None else req.description,
            req.amountFiat.value, req.fiatCurrency.value, amountBch, address, Pending, None, now)
  }

  /** `createInvoice`: the fields are checked before the price is asked
      for; an unknown currency is refused after it, so the cache may have
      been refreshed even when nothing is inserted. */
  method CreateInvoice(db: Db.Store, cache: PriceService.PriceCache, userId: UserId, req: InvoiceRequest,
                       addressDraws: seq<real>, now: int, fetch: PriceService.FetchOutcome)
    returns (r: Result<InvoiceReceipt>)
    requires db.Valid()
    requires BchService.BodyDigits <= |addressDraws| && AllDraws(addressDraws)
    modifies db, cache
    ensures db.Valid()
    ensures MissingRequired(req) ==>
      r == Err(BadRequest("Missing required fields")) && db.State() == old(db.State()) && cache.State() == old(cache.State())
    ensures !MissingRequired(req) ==>
      var served := PriceService.Serve(old(cache.State()), now, fetch);
      var conversion := ConvertToBch(served.prices, req.fiatCurrency.value, req.amountFiat.value);
      && cache.State() == served.cache
      && (r.Ok? <==> conversion.Ok?)
      && (r.Err? ==> r.error == conversion.error && db.State() == old(db.State()))
      && (r.Ok? ==>
            && r.value.id == old(db.nextId) && r.value.status == Pending
            && r.value.amountBch == conversion.value
            && BchService.ValidateAddress(r.value.paymentAddress)
            && db.State() == old(db.State()).(
                 invoices := old(db.invoices)[r.value.id :=
                   NewInvoice(r.value.id, userId, req, r.value.amountBch, r.value.paymentAddress, now)],
                 nextId := r.value.id + 1))
  {
    if req.title.None? || req.title.value == "" || req.amountFiat.None? || req.amountFiat.value == 0.0
       || req.fiatCurrency.None? || req.fiatCurrency.value == "" {
      return Err(BadRequest("Missing required fields"));
    }
    var prices, _ := cache.GetBCHPrices(now, fetch);
    var bchPrice := PriceFor(prices, ToLower(req.fiatCurrency.value));
    if bchPrice.None? || bchPrice.value == 0.0 {
      return Err(BadRequest("Invalid currency"));
    }
    var amountBch := req.amountFiat.value / bchPrice.value;
    var paymentAddress := BchService.GenerateAddress(addressDraws);
    var row := NewInvoice(0, userId, req, amountBch, paymentAddress, now);
    var id := db.InsertInvoice(row);
    assert row.(id := id) == NewInvoice(id, userId, req, amountBch, paymentAddress, now);
    r := Ok(InvoiceReceipt(id, paymentAddress, amountBch, Pending));
  }

  /** `getInvoices`: the requester's invoices, each once, newest first. */
  function GetInvoices(s: Db.Snapshot, userId: UserId): (r: seq<Invoice>)
    requires Db.WellFormed(s)
    ensures forall v :: multiset(r)[v] == if v in s.invoices.Values && v.userId == userId then 1 else 0
    ensures forall v :: v in r <==> v in s.invoices.Values && v.userId == userId
    ensures forall i, j :: 0 <= i < j < |r| ==> r[i].id != r[j].id
    ensures Descending(r, InvoiceCreated)
  {
    Query(s.invoices, s.nextId, (v: Invoice) => v.id, (v: Invoice) => v.userId == userId, InvoiceCreated)
  }

  /** `getInvoice`: the whole row. Any authenticated user may read any
      invoice; the owner is not compared with the requester. */
  function GetInvoice(s: Db.Snapshot, id: Id): (r: Result<Invoice>)
    ensures r.Err? <==> id !in s.invoices
    ensures r.Err? ==> r.error == NotFound("Invoice not found")
    ensures r.Ok? ==> r.value == s.invoices[id]
  {
    if id in s.invoices then Ok(s.invoices[id]) else Err(NotFound("Invoice not found"))
  }

  /** The columns the public view selects: all but the owner. */
  datatype PublicInvoice = PublicInvoice(
    id: Id, title: string, description: Option<string>, amountFiat: real, fiatCurrency: string,
    amountBch: real, paymentAddress: string, status: InvoiceStatus, createdAt: int, paidAt: Option<int>)

  function PublicView(v: Invoice): PublicInvoice {
    PublicInvoice(v.id, v.title, v.description, v.amountFiat, v.fiatCurrency, v.amountBch,
                  v.paymentAddress, v.status, v.createdAt, v.paidAt)
  }

  /** `getPublicInvoice`: no sign-in needed; the owner is left out. */
  function GetPublicInvoice(s: Db.Snapshot, id: Id): (r: Result<PublicInvoice>)
    ensures r.Err? <==> GetInvoice(s, id).Err?
    ensures r.Err? ==> r.error == NotFound("Invoice not found")
    ensures r.Ok? ==> r.value == PublicView(s.invoices[id])
  {
    if id in s.invoices then Ok(PublicView(s.invoices[id])) else Err(NotFound("Invoice not found"))
  }

  /** The public view reveals nothing about who owns an invoice: two
      invoices that differ only in their owner look the same, and every
      other field is shown as stored. */
  lemma PublicViewHidesOwner(v: Invoice, otherOwner: UserId)
    ensures PublicView(v) == PublicView(v.(userId := otherOwner))
    ensures var p := PublicView(v);
      v == Invoice(p.id, v.userId, p.title, p.description, p.amountFiat, p.fiatCurrency, p.amountBch,
                   p.paymentAddress, p.status, p.paidAt, p.createdAt)
  {
  }
}
