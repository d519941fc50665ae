/**
 * pkg/api/service/exchangerate.go: looking up the Treasury rate of exchange
 * for a purchase (building the query, retrying while the remote service
 * throttles, checking the answer and its recency) and converting the
 * purchase amount with the rate found.
 */
module ExchangeRate {
  import opened Wrappers
  import opened Text
  import opened UrlEscape
  import opened Decimal
  import opened Dates
  import opened ApiOut
  import opened Entities

  /** ExchangeRatePayload: what a rate is looked up for. */
  datatype Payload = Payload(countryName: string, currency: string, recordDate: Instant)

  /** ExchangeRateResponse: one row of the remote service's `data` list, all text. */
  datatype Quote = Quote(countryCurrencyDesc: string, exchangeRate: string, recordDate: string)

  /**
   * The decoded answer body: the `data` rows, or the message of the JSON
   * decoder's error (a plain error to apiout.Error).
   */
  datatype Body = Data(data: seq<Quote>) | Undecodable(msg: string)

  datatype Response = Response(status: int, body: Body)

  /** What client.Do gave for one attempt. */
  datatype Outcome = TransportError | Received(response: Response)

  /**
   * One attempt of the retry loop: its outcome, the time elapsed since the
   * back-off started when it finished, and the randomised interval the
   * back-off would wait before the next one (both in milliseconds).
   */
  datatype Attempt = Attempt(outcome: Outcome, elapsedMs: int, nextMs: int)

  /** expBackOff.MaxElapsedTime: one minute. */
  const MaxElapsedMs := 60_000

  const StatusOk := 200
  const StatusTooManyRequests := 429

  const NotConvertible := "the purchase cannot be converted to the target currency"

  // ------------------------------------------------------------------ query

  /** strings.Trim(name, "\""): quotes the caller may have put around a name. */
  function Unquote(name: string): (r: string)
    ensures TrimChar(r, '"') == r
  {
    TrimCharIdempotent(name, '"');
    TrimChar(name, '"')
  }

  /** The `fields` parameter: the three columns wanted, comma-separated. */
  const FieldsParam := Join(["country_currency_desc", "exchange_rate", "record_date"], ',')
  const SortParam := "-record_date"
  const DateClause := "record_date:lte:"
  const CurrencyClause := "country_currency_desc:eq:"

  /** The `filter` parameter: rates up to the purchase date, for the country's currency; it never holds an '&'. */
  function Filter(p: Payload): (f: string)
    ensures '&' !in f
  {
    FilterPartsPlain(p);
    FilterOfPlain(FormatDateOnly(p.recordDate.date), QueryEscape(Unquote(p.countryName)), QueryEscape(Unquote(p.currency)));
    FilterOf(FormatDateOnly(p.recordDate.date), QueryEscape(Unquote(p.countryName)), QueryEscape(Unquote(p.currency)))
  }

  function FilterOf(date: string, country: string, currency: string): string
  {
    Join([DateClause + date, CurrencyClause + country + "-" + currency], ',')
  }

  lemma FilterOfPlain(date: string, country: string, currency: string)
    requires '&' !in date && '&' !in country && '&' !in currency
    ensures '&' !in FilterOf(date, country, currency)
  {
    ClausesPlain('&', date, country, currency);
    NotInJoin([DateClause + date, CurrencyClause + country + "-" + currency], ',', '&');
  }

  /**
   * req.URL.RawQuery: the filter, the fields wanted, newest first, one row
   * per page. The query holds exactly these four parameters: neither the
   * date nor the escaped names can bring in an '&'.
   */
  function RawQuery(p: Payload): (q: string)
    ensures Split(q, '&') == ["filter=" + Filter(p), "fields=" + FieldsParam, "sort=" + SortParam, "page[size]=1"]
  {
    QueryOfParams(Filter(p));
    QueryOf(Filter(p))
  }

  function QueryOf(filter: string): string
  {
    Join(["filter=" + filter, "fields=" + FieldsParam, "sort=" + SortParam, "page[size]=1"], '&')
  }

  /** The date and the escaped names hold none of the characters that delimit the query and its filter. */
  lemma FilterPartsPlain(p: Payload)
    ensures var date := FormatDateOnly(p.recordDate.date);
            ',' !in date && '&' !in date
    ensures var country := QueryEscape(Unquote(p.countryName));
            ',' !in country && '&' !in country
    ensures var currency := QueryEscape(Unquote(p.currency));
            ',' !in currency && '&' !in currency
  {
    FormatDateOnlyChars(p.recordDate.date);
    var date := FormatDateOnly(p.recordDate.date);
    assert forall i | 0 <= i < |date| :: date[i] != ',' && date[i] != '&';
    EscapedHasNoDelimiters(Unquote(p.countryName));
    EscapedHasNoDelimiters(Unquote(p.currency));
  }

  /** Neither clause of the filter holds c, when the date and the names do not. */
  lemma ClausesPlain(c: char, date: string, country: string, currency: string)
    requires c == ',' || c == '&'
    requires c !in date && c !in country && c !in currency
    ensures c !in DateClause + date && c !in CurrencyClause + country + "-" + currency
  {
    assert c !in DateClause && c !in CurrencyClause;
    NotInConcat(c, DateClause, date);
    NotInConcat(c, "-", currency);
    NotInConcat(c, country, "-" + currency);
    NotInConcat(c, CurrencyClause, country + ("-" + currency));
    assert CurrencyClause + country + "-" + currency == CurrencyClause + (country + ("-" + currency));
  }

  /**
   * The filter holds exactly two clauses, the date bound and the currency
   * match, whatever the names hold: escaping keeps ',' out of them.
   */
  lemma FilterClauses(p: Payload)
    ensures Split(Filter(p), ',') == [
      DateClause + FormatDateOnly(p.recordDate.date),
      CurrencyClause + QueryEscape(Unquote(p.countryName)) + "-" + QueryEscape(Unquote(p.currency))]
  {
    FilterPartsPlain(p);
    FilterOfClauses(FormatDateOnly(p.recordDate.date), QueryEscape(Unquote(p.countryName)), QueryEscape(Unquote(p.currency)));
  }

  lemma FilterOfClauses(date: string, country: string, currency: string)
    requires ',' !in date && ',' !in country && ',' !in currency
    ensures Split(FilterOf(date, country, currency), ',') == [DateClause + date, CurrencyClause + country + "-" + currency]
  {
    ClausesPlain(',', date, country, currency);
    SplitOfJoin([DateClause + date, CurrencyClause + country + "-" + currency], ',');
  }

  lemma FieldsPlain()
    ensures '&' !in FieldsParam
  {
    var fields := ["country_currency_desc", "exchange_rate", "record_date"];
    assert '&' !in fields[0] && '&' !in fields[1] && '&' !in fields[2];
    NotInJoin(fields, ',', '&');
  }

  /** The fixed parameters hold no '&'. */
  lemma FixedParamsPlain()
    ensures '&' !in "fields=" + FieldsParam && '&' !in "sort=" + SortParam && '&' !in "page[size]=1"
  {
    FieldsPlain();
    NotInConcat('&', "fields=", FieldsParam);
    NotInConcat('&', "sort=", SortParam);
  }

  lemma QueryOfParams(filter: string)
    requires '&' !in filter
    ensures Split(QueryOf(filter), '&') == ["filter=" + filter, "fields=" + FieldsParam, "sort=" + SortParam, "page[size]=1"]
  {
    NotInConcat('&', "filter=", filter);
    FixedParamsPlain();
    SplitOfJoin(["filter=" + filter, "fields=" + FieldsParam, "sort=" + SortParam, "page[size]=1"], '&');
  }

  // ------------------------------------------------------------ retry loop

  /** What the retried operation returns: nil, the throttling error, or a permanent error. */
  datatype OperationResult = Done | Throttled | Permanent

  /** The operation closure: a transport error is permanent, 429 asks for a retry, anything else is done. */
  function Operation(o: Outcome): (r: OperationResult)
    ensures r == Done <==> o.Received? && o.response.status != StatusTooManyRequests
  {
    match o
    case TransportError => Permanent
    case Received(resp) => if resp.status == StatusTooManyRequests then Throttled else Done
  }

  /** backoff.Retry goes on after this attempt: throttled, and the next wait still fits the one-minute budget. */
  predicate Retried(a: Attempt)
  {
    Operation(a.outcome) == Throttled && a.elapsedMs + a.nextMs <= MaxElapsedMs
  }

  /** The attempt at which backoff.Retry stops: the first one not retried. */
  function FirstSettled(attempts: seq<Attempt>): (k: nat)
    requires exists k | 0 <= k < |attempts| :: !Retried(attempts[k])
    ensures k < |attempts| && !Retried(attempts[k])
    ensures forall j | 0 <= j < k :: Retried(attempts[j])
  {
    if !Retried(attempts[0]) then 0
    else
      assert exists k | 0 <= k < |attempts[1..]| :: !Retried(attempts[1..][k]) by {
        var k :| 0 <= k < |attempts| && !Retried(attempts[k]);
        assert attempts[1..][k - 1] == attempts[k];
      }
      1 + FirstSettled(attempts[1..])
  }

  /** Only one attempt is the first that is not retried. */
  lemma FirstSettledUnique(attempts: seq<Attempt>, i: nat)
    requires i < |attempts| && !Retried(attempts[i])
    requires forall j | 0 <= j < i :: Retried(attempts[j])
    ensures FirstSettled(attempts) == i
  {
  }

  /** The result of GetExchangeRate: the quote, the error it returns, or the transport failure. */
  datatype Lookup = Found(quote: Quote) | Rejected(err: Error) | TransportAborted

  /**
   * The checks made on the response the loop ended with, in the code's
   * order: the status must be 200, the body must decode, the list must not
   * be empty, the first row's record_date must parse, and that date must
   * not be before six months ahead of the purchase.
   */
  function CheckResponse(resp: Response, p: Payload): (r: Lookup)
    requires ValidDate(p.recordDate.date)
    ensures r.Rejected? ==> ErrorReply(r.err).status == 400 || ErrorReply(r.err).status == 500
  {
    if resp.status != StatusOk then
      Rejected(RequestError("the exchange rate service failed with status code " + IntToString(resp.status),
                          StatusInternalServerError))
    else if resp.body.Undecodable? then Rejected(Plain(resp.body.msg))
    else if |resp.body.data| == 0 then Rejected(RequestError(NotConvertible, StatusBadRequest))
    else
      match ParseDateOnly(resp.body.data[0].recordDate)
      case None => Rejected(RequestError("unable to parse returned record date", StatusInternalServerError))
      case Some(recordDate) =>
        if Before(recordDate, SixMonthsBefore(p.recordDate)) then Rejected(RequestError(NotConvertible, StatusBadRequest))
        else Found(resp.body.data[0])
  }

  /**
   * What GetExchangeRate makes of the attempt backoff.Retry stopped at: a
   * transport failure, and nothing else, aborts; every error it returns is
   * answered 400 or 500.
   */
  function Settle(a: Attempt, p: Payload): (r: Lookup)
    requires !Retried(a) && ValidDate(p.recordDate.date)
    ensures r.TransportAborted? <==> a.outcome.TransportError?
    ensures r.Rejected? ==> ErrorReply(r.err).status == 400 || ErrorReply(r.err).status == 500
  {
    match a.outcome
    case TransportError => TransportAborted
    case Received(resp) =>
      if resp.status == StatusTooManyRequests then Rejected(Plain("too many request error"))
      else CheckResponse(resp, p)
  }

  /**
   * backoff.Retry with the operation closure: each attempt's response is
   * kept in `resp` (none after a transport error), and the loop goes on
   * while the operation asks for a retry within the budget. It stops at the
   * first attempt that is not retried.
   */
  method Retry(attempts: seq<Attempt>) returns (i: nat, op: OperationResult, resp: Option<Response>)
    requires exists k | 0 <= k < |attempts| :: !Retried(attempts[k])
    ensures i < |attempts| && !Retried(attempts[i])
    ensures forall j | 0 <= j < i :: Retried(attempts[j])
    ensures op == Operation(attempts[i].outcome)
    ensures resp.Some? <==> attempts[i].outcome.Received?
    ensures resp.Some? ==> resp.value == attempts[i].outcome.response
  {
    ghost var stop :| 0 <= stop < |attempts| && !Retried(attempts[stop]);
    i := 0;
    op := Operation(attempts[0].outcome);
    resp := if attempts[0].outcome.Received? then Some(attempts[0].outcome.response) else None;
    while op == Throttled && attempts[i].elapsedMs + attempts[i].nextMs <= MaxElapsedMs
      invariant i <= stop
      invariant forall j | 0 <= j < i :: Retried(attempts[j])
      invariant op == Operation(attempts[i].outcome)
      invariant resp.Some? <==> attempts[i].outcome.Received?
      invariant resp.Some? ==> resp.value == attempts[i].outcome.response
      decreases stop - i
    {
      i := i + 1;
      op := Operation(attempts[i].outcome);
      resp := if attempts[i].outcome.Received? then Some(attempts[i].outcome.response) else None;
    }
  }

  /**
   * GetExchangeRate: set the query, run the attempts until backoff.Retry
   * stops, then check the response it stopped with. The attempts are what
   * the remote service and the back-off timer give, in order; the loop is
   * known to stop within them (the budget runs out after one minute).
   */
  method GetExchangeRate(p: Payload, attempts: seq<Attempt>) returns (rawQuery: string, r: Lookup)
    requires ValidDate(p.recordDate.date)
    requires exists k | 0 <= k < |attempts| :: !Retried(attempts[k])
    ensures rawQuery == RawQuery(p)
    ensures r == Settle(attempts[FirstSettled(attempts)], p)
  {
    rawQuery := RawQuery(p);
    var i, op, resp := Retry(attempts);
    FirstSettledUnique(attempts, i);
    ghost var settled := attempts[i];
    if op == Permanent {
      assert settled.outcome.TransportError?;
      r := TransportAborted;
    } else if op == Throttled {
      assert settled.outcome.Received? && settled.outcome.response.status == StatusTooManyRequests;
      r := Rejected(Plain("too many request error"));
    } else {
      assert settled.outcome == Received(resp.value);
      r := CheckResponse(resp.value, p);
    }
  }

  // -------------------------------------------------------------- lookups

  /** A quote is found exactly when every check passes, and it is then the first row, unchanged. */
  lemma CheckResponseFound(resp: Response, p: Payload)
    requires ValidDate(p.recordDate.date)
    ensures CheckResponse(resp, p).Found? <==>
            resp.status == 200 && resp.body.Data? && |resp.body.data| > 0
            && ParseDateOnly(resp.body.data[0].recordDate).Some?
            && !Before(ParseDateOnly(resp.body.data[0].recordDate).value, SixMonthsBefore(p.recordDate))
    ensures CheckResponse(resp, p).Found? ==> CheckResponse(resp, p).quote == resp.body.data[0]
    ensures !CheckResponse(resp, p).TransportAborted?
  {
  }

  /**
   * The status each failed check is answered with: 500 for a status other
   * than 200, an undecodable body or an unparsable date, 400 for an empty list or a quote older
   * than six months before the purchase.
   */
  lemma CheckResponseStatus(resp: Response, p: Payload)
    requires ValidDate(p.recordDate.date)
    ensures resp.status != 200 ==> CheckResponse(resp, p).Rejected? && ErrorReply(CheckResponse(resp, p).err).status == 500
    ensures resp.status == 200 && resp.body.Undecodable? ==>
              CheckResponse(resp, p) == Rejected(Plain(resp.body.msg))
              && ErrorReply(CheckResponse(resp, p).err) == Reply(500, ErrorBody("Internal Server Error"))
    ensures resp.status == 200 && resp.body.Data? && |resp.body.data| == 0 ==>
              CheckResponse(resp, p) == Rejected(RequestError(NotConvertible, 400))
    ensures resp.status == 200 && resp.body.Data? && |resp.body.data| > 0
            && ParseDateOnly(resp.body.data[0].recordDate).None? ==>
              CheckResponse(resp, p) == Rejected(RequestError("unable to parse returned record date", 500))
    ensures resp.status == 200 && resp.body.Data? && |resp.body.data| > 0
            && ParseDateOnly(resp.body.data[0].recordDate).Some?
            && Before(ParseDateOnly(resp.body.data[0].recordDate).value, SixMonthsBefore(p.recordDate)) ==>
              CheckResponse(resp, p) == Rejected(RequestError(NotConvertible, 400))
  {
  }

  /**
   * The recency rule on a quote dated exactly on the cutoff day: accepted
   * for a purchase made at midnight, but rejected for a purchase with a
   * time of day, since the cutoff keeps that time and the quote is dated
   * at midnight.
   */
  lemma CutoffDay(resp: Response, p: Payload)
    requires ValidInstant(p.recordDate)
    requires resp.status == 200 && resp.body.Data? && |resp.body.data| > 0
    requires ParseDateOnly(resp.body.data[0].recordDate) == Some(Midnight(SixMonthsBefore(p.recordDate).date))
    ensures p.recordDate.nanos == 0 ==> CheckResponse(resp, p) == Found(resp.body.data[0])
    ensures p.recordDate.nanos > 0 ==> CheckResponse(resp, p) == Rejected(RequestError(NotConvertible, 400))
  {
  }

  /** A quote dated on or after the purchase day is never too old. */
  lemma RecentQuoteAccepted(resp: Response, p: Payload)
    requires ValidInstant(p.recordDate)
    requires resp.status == 200 && resp.body.Data? && |resp.body.data| > 0
    requires ParseDateOnly(resp.body.data[0].recordDate).Some?
    requires !DateLess(ParseDateOnly(resp.body.data[0].recordDate).value.date, p.recordDate.date)
    ensures CheckResponse(resp, p) == Found(resp.body.data[0])
  {
    SixMonthsBeforeIsEarlier(p.recordDate);
  }

  /** One throttled attempt within the budget, then an answer: the answer is what is checked. */
  lemma ThrottledThenAnswered(attempts: seq<Attempt>, p: Payload)
    requires ValidDate(p.recordDate.date) && |attempts| == 2
    requires attempts[0].outcome.Received? && attempts[0].outcome.response.status == 429
    requires attempts[0].elapsedMs + attempts[0].nextMs <= 60_000
    requires attempts[1].outcome.Received? && attempts[1].outcome.response.status != 429
    ensures !Retried(attempts[1]) && FirstSettled(attempts) == 1
    ensures Settle(attempts[FirstSettled(attempts)], p) == CheckResponse(attempts[1].outcome.response, p)
  {
  }

  /** Throttled past the one-minute budget: the loop gives up with a plain error, answered 500. */
  lemma BudgetExhausted(a: Attempt, p: Payload)
    requires ValidDate(p.recordDate.date)
    requires a.outcome.Received? && a.outcome.response.status == 429
    requires a.elapsedMs + a.nextMs > 60_000
    ensures !Retried(a)
    ensures Settle(a, p) == Rejected(Plain("too many request error"))
    ensures ErrorReply(Settle(a, p).err) == Reply(500, ErrorBody("Internal Server Error"))
  {
  }

  /** A transport error stops the loop at once, however much budget is left. */
  lemma TransportErrorStops(attempts: seq<Attempt>, p: Payload)
    requires ValidDate(p.recordDate.date)
    requires |attempts| > 0 && attempts[0].outcome.TransportError?
    ensures FirstSettled(attempts) == 0
    ensures Settle(attempts[FirstSettled(attempts)], p) == TransportAborted
  {
  }

  // ------------------------------------------------------------ conversion

  /** convertAmount: the exact product, with nothing rounded. */
  function ConvertAmount(original: Decimal, rate: Decimal): (r: Decimal)
    ensures r.exp == original.exp + rate.exp
    ensures forall ea, eb | ea <= original.exp && eb <= rate.exp ::
              Scaled(r, ea + eb) == Scaled(original, ea) * Scaled(rate, eb)
  {
    forall ea, eb | ea <= original.exp && eb <= rate.exp
      ensures Scaled(Mul(original, rate), ea + eb) == Scaled(original, ea) * Scaled(rate, eb)
    {
      MulExact(original, rate, ea, eb);
    }
    Mul(original, rate)
  }

  /**
   * ConvertCurrency: parse the quote's rate (its parse error is returned as
   * it is), then report the purchase together with the converted amount,
   * the unquoted country and currency, and the rate and its date as quoted.
   */
  function ConvertCurrency(p: Payload, t: Transaction, q: Quote): (r: Result<PurchaseConversion, Error>)
    ensures r.Err? <==> Parse(q.exchangeRate).Err?
    ensures r.Err? ==> r.error == Plain(Parse(q.exchangeRate).error)
    ensures r.Ok? ==> r.value.transaction == Details(t)
                      && r.value.converted.exchangeRateUsed == q.exchangeRate
                      && r.value.converted.exchangeRateDate == q.recordDate
                      && r.value.converted.country == Unquote(p.countryName)
                      && r.value.converted.currency == Unquote(p.currency)
  {
    match Parse(q.exchangeRate)
    case Err(msg) => Err(Plain(msg))
    case Ok(rate) =>
      Ok(PurchaseConversion(
        Details(t),
        ConvertedDetails(String(ConvertAmount(t.amountInUsd, rate)), Unquote(p.countryName), Unquote(p.currency),
                         q.exchangeRate, q.recordDate)))
  }

  /** The converted amount, read back, is exactly the amount times the quoted rate. */
  lemma ConvertedAmountExact(p: Payload, t: Transaction, q: Quote)
    requires ConvertCurrency(p, t, q).Ok?
    ensures var amount := ConvertCurrency(p, t, q).value.converted.amount;
            Parse(amount).Ok? && Equal(Parse(amount).value, Mul(t.amountInUsd, Parse(q.exchangeRate).value))
  {
    ParseString(Mul(t.amountInUsd, Parse(q.exchangeRate).value));
  }

  /** 100 at a rate of 130 is 13000, and at 132.90 it is 13290. */
  lemma ConvertAmountExamples()
    ensures Equal(ConvertAmount(Decimal(100, 0), Decimal(130, 0)), Decimal(13000, 0))
    ensures Equal(ConvertAmount(Decimal(100, 0), Decimal(13290, -2)), Decimal(13290, 0))
  {
    assert Pow10(2) == 100;
  }
}
