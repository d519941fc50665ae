/**
 * The records the service stores and the shapes it answers with: the
 * ent.Transaction row and the generated API types (types.Transaction,
 * types.GetPurchaseTransaction, types.CreateNewPurchaseTransaction).
 */
module Entities {
  import opened Decimal
  import opened Dates

  /** A uuid.UUID, identified by its canonical text (what ID.String() prints). */
  datatype Uuid = Uuid(text: string)

  /** ent.Transaction: one stored purchase. */
  datatype Transaction = Transaction(id: Uuid, date: Instant, amountInUsd: Decimal, description: string)

  /** types.CreateNewPurchaseTransaction: the POST body. */
  datatype CreatePayload = CreatePayload(amount: string, description: string)

  /** types.Transaction: a purchase as the API reports it. */
  datatype TransactionDetails = TransactionDetails(amountInUsd: string, date: Instant, description: string, id: string)

  /** types.ConvertedPurchasePrice */
  datatype ConvertedDetails = ConvertedDetails(
    amount: string, country: string, currency: string, exchangeRateUsed: string, exchangeRateDate: string)

  /** types.GetPurchaseTransaction: the GET answer. */
  datatype PurchaseConversion = PurchaseConversion(transaction: TransactionDetails, converted: ConvertedDetails)

  /** The purchase fields every answer reports: the amount's String, the date, the description and the id's text. */
  function Details(t: Transaction): (d: TransactionDetails)
    ensures d.id == t.id.text && d.date == t.date && d.description == t.description
  {
    TransactionDetails(String(t.amountInUsd), t.date, t.description, t.id.text)
  }
}
