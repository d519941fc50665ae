/**
 * pkg/api/transaction.go: the two HTTP handlers. Each runs its steps in
 * order, stops at the first failure, and writes exactly one answer: an
 * error through apiout.Error, or the JSON result through apiout.JSON.
 * The collaborators are parameters: the uuid parser, the stored rows, what
 * the remote rate service answers, and what the JSON decoder reads.
 */
module Handlers {
  import opened Wrappers
  import opened Decimal
  import opened Dates
  import opened ApiOut
  import opened Entities
  import opened ExchangeRate
  import opened TransactionService

  /** What a handler writes: an error answer, a JSON result with its status, or nothing (see TransportAborted). */
  datatype Written<T> = Failure(reply: Reply) | Success(status: int, body: T) | Aborted

  const StatusCreated := 201

  const InvalidTransactionId := "invalid transaction id provided"

  /** types.GetPurchaseTransactionParams: the query parameters of the GET request. */
  datatype Params = Params(country: string, currency: string)

  /** The zero time.Time (January 1 of year 1, midnight UTC): the payload's date when converting. */
  const ZeroTime := Instant(Date(1, 1, 1), 0)

  /** What the handler answers once the rate lookup is done, for the row found: it writes nothing only after a transport failure. */
  function AnswerLookup(params: Params, t: Transaction, lookup: Lookup): (w: Written<PurchaseConversion>)
    ensures w.Aborted? <==> lookup.TransportAborted?
  {
    match lookup
    case Rejected(err) => Failure(ErrorReply(err))
    case TransportAborted => Aborted
    case Found(quote) =>
      match ConvertCurrency(Payload(params.country, params.currency, ZeroTime), t, quote)
      case Err(err) => Failure(ErrorReply(err))
      case Ok(output) => Success(StatusOk, output)
  }

  /**
   * After the lookup: its error reaches apiout.Error unchanged, conversion
   * runs only on a quote found, and a 200 reports the row, the unquoted
   * names and an amount that reads back as the exact product with the rate.
   */
  lemma AnswerLookupCases(params: Params, t: Transaction, lookup: Lookup)
    ensures lookup.Rejected? ==> AnswerLookup(params, t, lookup) == Failure(ErrorReply(lookup.err))
    ensures AnswerLookup(params, t, lookup).Success? <==> lookup.Found? && Parse(lookup.quote.exchangeRate).Ok?
    ensures lookup.Found? && Parse(lookup.quote.exchangeRate).Err? ==>
              AnswerLookup(params, t, lookup) == Failure(Reply(500, ErrorBody("Internal Server Error")))
    ensures AnswerLookup(params, t, lookup).Success? ==>
              var answer := AnswerLookup(params, t, lookup);
              var rate := Parse(lookup.quote.exchangeRate).value;
              answer.status == 200 && answer.body.transaction == Details(t)
              && answer.body.converted.country == Unquote(params.country)
              && answer.body.converted.currency == Unquote(params.currency)
              && answer.body.converted.exchangeRateUsed == lookup.quote.exchangeRate
              && Parse(answer.body.converted.amount).Ok?
              && Equal(Parse(answer.body.converted.amount).value, Mul(t.amountInUsd, rate))
  {
    if lookup.Found? && Parse(lookup.quote.exchangeRate).Ok? {
      ConvertedAmountExact(Payload(params.country, params.currency, ZeroTime), t, lookup.quote);
    }
  }

  /**
   * GET api/v1/transaction/{transaction_id}: parse the id, find the row,
   * look up the rate for the row's date and the requested country and
   * currency, convert, and answer 200. `lookedUp` is the payload the rate
   * lookup was called with, if it was called.
   */
  method GetPurchaseTransaction(
    db: Service, parseUuid: string -> Option<Uuid>, transactionId: string, params: Params, attempts: seq<Attempt>)
    returns (w: Written<PurchaseConversion>, lookedUp: Option<Payload>)
    requires db.Valid()
    requires exists k | 0 <= k < |attempts| :: !Retried(attempts[k])
    ensures parseUuid(transactionId).None? ==>
              w == Failure(ErrorReply(RequestError(InvalidTransactionId, StatusBadRequest))) && lookedUp == None
    ensures parseUuid(transactionId).Some? && parseUuid(transactionId).value !in db.rows ==>
              w == Failure(ErrorReply(RequestError(TransactionNotFound, StatusNotFound))) && lookedUp == None
    ensures parseUuid(transactionId).Some? && parseUuid(transactionId).value in db.rows ==>
              var t := db.rows[parseUuid(transactionId).value];
              var p := Payload(params.country, params.currency, t.date);
              lookedUp == Some(p) && w == AnswerLookup(params, t, Settle(attempts[FirstSettled(attempts)], p))
  {
    var id := parseUuid(transactionId);
    if id.None? {
      return Failure(ErrorReply(RequestError(InvalidTransactionId, StatusBadRequest))), None;
    }
    if id.value !in db.rows {
      return Failure(ErrorReply(RequestError(TransactionNotFound, StatusNotFound))), None;
    }
    var t := db.rows[id.value];
    var p := Payload(params.country, params.currency, t.date);
    lookedUp := Some(p);
    var _, lookup := GetExchangeRate(p, attempts);
    if lookup.Rejected? {
      return Failure(ErrorReply(lookup.err)), lookedUp;
    }
    if lookup.TransportAborted? {
      return Aborted, lookedUp;
    }
    var output := ConvertCurrency(Payload(params.country, params.currency, ZeroTime), t, lookup.quote);
    if output.Err? {
      return Failure(ErrorReply(output.error)), lookedUp;
    }
    w := Success(StatusOk, output.value);
  }

  /**
   * POST api/v1/transaction: decode the body, create the transaction, and
   * answer 201 with it. A decoding error is answered as it is; any error of
   * the service is re-wrapped as a bad request, which apiout.Error answers
   * 400 with an empty error message.
   */
  method PostPurchaseTransaction(
    db: Service, contentType: string, first: Decoded<CreatePayload>, second: Decoded<()>, now: Instant, newId: Uuid)
    returns (w: Written<TransactionDetails>)
    requires db.Valid() && ValidInstant(now) && newId !in db.rows
    modifies db
    ensures db.Valid()
    ensures DecodeJSONBody(contentType, first, second).Err? ==>
              w == Failure(ErrorReply(DecodeJSONBody(contentType, first, second).error)) && db.rows == old(db.rows)
    ensures DecodeJSONBody(contentType, first, second).Ok? ==>
              var amount := Parse(first.value.amount);
              w.Success? <==> amount.Ok? && !IsNegative(amount.value) && Storable(NewRow(first.value, amount.value, now, newId))
    ensures w.Success? ==>
              var row := NewRow(first.value, Parse(first.value.amount).value, now, newId);
              w == Success(201, Details(row)) && db.rows == old(db.rows)[newId := row]
    ensures DecodeJSONBody(contentType, first, second).Ok? && w.Failure? ==>
              w.reply == Reply(400, ErrorBody("")) && db.rows == old(db.rows)
    ensures !w.Aborted?
  {
    var payload := DecodeJSONBody(contentType, first, second);
    if payload.Err? {
      return Failure(ErrorReply(payload.error));
    }
    var response := db.CreateNewPurchaseTransaction(payload.value, now, newId);
    if response.Err? {
      return Failure(ErrorReply(BadRequest(Message(response.error))));
    }
    w := Success(StatusCreated, response.value);
  }
}
