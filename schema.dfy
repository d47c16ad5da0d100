/** The rows of the marketplace's tables. Amounts of BCH and of fiat money
    are reals; ids are natural numbers drawn from the store's counter;
    timestamps are integers (milliseconds) supplied by the caller. */
module Schema {
  import opened Common

  type Id = nat
  type UserId = nat

  datatype OfferStatus = Active | Inactive

  /** A standing buy or sell order. `side` is the offer's `type` column; the
      controllers store whatever non-empty string the client sent and only
      ever compare it with "sell". */
  datatype Offer = Offer(
    id: Id,
    userId: UserId,
    side: string,
    amountBch: real,
    pricePerBch: real,
    fiatCurrency: string,
    paymentMethod: string,
    minLimit: real,
    maxLimit: real,
    status: OfferStatus,
    createdAt: int)

  datatype TradeStatus = Initiated | Funded | Paid | Completed | Disputed | Cancelled

  /** A trade between a buyer and a seller, instantiated against an offer. */
  datatype Trade = Trade(
    id: Id,
    offerId: Id,
    buyerId: UserId,
    sellerId: UserId,
    amountBch: real,
    amountFiat: real,
    fiatCurrency: string,
    paymentMethod: string,
    escrowAddress: string,
    status: TradeStatus,
    createdAt: int,
    updatedAt: int)

  datatype Message = Message(
    id: Id,
    tradeId: Id,
    senderId: UserId,
    content: string,
    createdAt: int)

  /** One wallet per user; the table is keyed by the owner's id. */
  datatype Wallet = Wallet(userId: UserId, address: string, balanceBch: real)

  datatype TransactionKind = Deposit | Withdrawal | Escrow

  datatype Transaction = Transaction(
    id: Id,
    userId: UserId,
    txid: string,
    kind: TransactionKind,
    amountBch: real,
    confirmations: nat,
    createdAt: int)

  /** Stored as "pending", "paid" and "expired"; the paid status is named
      `Settled` here because `Paid` already names a trade status. */
  datatype InvoiceStatus = Pending | Settled | Expired

  datatype Invoice = Invoice(
    id: Id,
    userId: UserId,
    title: string,
    description: Option<string>,
    amountFiat: real,
    fiatCurrency: string,
    amountBch: real,
    paymentAddress: string,
    status: InvoiceStatus,
    paidAt: Option<int>,
    createdAt: int)

  /** Sort keys for the `ORDER BY created_at` of the queries. */
  function OfferCreated(o: Offer): int { o.createdAt }
  function TradeCreated(t: Trade): int { t.createdAt }
  function TransactionCreated(t: Transaction): int { t.createdAt }
  function InvoiceCreated(i: Invoice): int { i.createdAt }
  /** Messages are listed oldest first: a descending sort on the negated time. */
  function MessageAge(m: Message): int { -m.createdAt }
}
