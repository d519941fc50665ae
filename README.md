# wex-tag purchase transactions, modelled in Dafny

wex-tag is a small HTTP service. It records purchase transactions in US
dollars and reports each one converted into another country's currency.
The rate comes from the US Treasury "rates of exchange" API.

- `POST api/v1/transaction` decodes a JSON body with an amount (a decimal
  string) and a description. It refuses malformed and negative amounts. It
  rounds the amount half away from zero to the cent. It stores the row under
  a new UUID with the current time, and answers 201 with the stored row.
- `GET api/v1/transaction/{id}?country=…&currency=…` parses the id and finds
  the row. It asks the Treasury API for the latest rate dated on or before
  the purchase, retrying while the API answers 429. It refuses a rate dated
  more than six months before the purchase, multiplies the amount by the
  rate, and answers 200.
- Every error goes through `apiout.Error`. A bad-request error answers 400
  with an empty message. An `APIError` answers its own status with its
  message. Anything else answers 500 "Internal Server Error".

The project models this core in Dafny:

- `wrappers.dfy` holds `Option` and `Result`.
- `text.dfy` holds decimal digit strings, UTF-8 byte length, and
  `strings.Trim` with one cut character. It also holds join and split with a
  one-character separator. The program only joins; splitting is how the
  receiver of the query text reads it back.
- `url_escape.dfy` models `net/url`'s `QueryEscape` and `QueryUnescape`.
- `decimal.dfy` models the `shopspring/decimal` operations the service
  uses: `NewFromString`, `IsNegative`, `IsZero`, `Mul`, `Round`, `String`
  and `Equal`. A value is `coef × 10^exp` with unbounded integers.
- `dates.dfy` models the `time` operations the service uses:
  - `AddDate(0, -6, 0)`, with Go's normalisation of an overflowing day;
  - `Before`;
  - `DateOnly` formatting and parsing.
- `apiout.dfy` models the error values, `apiout.Error` and `DecodeJSONBody`.
- `entities.dfy` holds the stored row and the API's request and response
  shapes.
- `exchangerate.dfy` models `GetExchangeRate` and `ConvertCurrency`:
  - the query text;
  - the retry loop, as a method over the sequence of attempts the remote
    API produces;
  - the checks on the answer;
  - the six-month rule;
  - the conversion.
- `transaction_service.dfy` models the transaction service as a class. Its
  `rows` map is the transaction table. Its methods create and store a
  purchase, and a function reads one back.
- `handlers.dfy` models the two HTTP handlers as methods over the service
  and the abstract collaborators.

Behaviour of the code worth knowing:

- The converted amount is not rounded to the cent. It is the exact product,
  printed by `String`.
- The six-month cutoff compares full instants. A quote dated exactly six
  months before the purchase is accepted only when the purchase time is
  midnight (`ExchangeRate.CutoffDay`).
- Any error from creating a purchase is re-wrapped by the POST handler as a
  bad request. The client then sees 400 with an empty error message, not
  the service's message.
- Six months before a date is `AddDate(0, -6, 0)`. A day that does not exist
  in the target month rolls forward into the next month (August 31 gives
  March 3 or March 2). It is not clamped to the month's last day
  (`Dates.AddMonthsDay`, `Dates.SixMonthsBeforeExamples`).
- The rate lookup cannot be cancelled. The GET handler passes the request
  context to `GetExchangeRate` (pkg/api/transaction.go:16, :31), but the
  lookup never uses it. It builds the request with `http.NewRequest`
  (pkg/api/service/exchangerate.go:43), and `backoff.Retry` gets no context
  (:82). So neither the request nor the retry loop stops when the client
  goes away, and the loop runs its full backoff schedule.
- A transport failure does not end in an error answer. The operation
  returns an empty `backoff.PermanentError`, so `backoff.Retry`
  returns a nil error. The code then reads the status of a nil response at
  pkg/api/service/exchangerate.go:87 and panics. The model ends such a
  lookup as `TransportAborted`, and the handler writes no answer
  (`ExchangeRate.TransportErrorStops`).

## Model

| member | source | states |
|---|---|---|
| Decimal.Parse | pkg/api/service/transaction.go:27-30 | NewFromString: on success at most one '.' was present, and the exponent is minus the number of characters after the '.', or 0 without one |
| Decimal.ParseNoDotRejected | pkg/api/service/transaction.go:27-30 | without a '.', text that is not an integer literal (such as "12a") is refused with "can't convert … to decimal" |
| Decimal.ParseNumber | pkg/api/service/transaction.go:27 | an optional '-', integer digits and an optional '.' with more digits parse to the digits as coefficient and minus the fraction length as exponent |
| Decimal.ParseOneDot | pkg/api/service/exchangerate.go:125 | with one '.', the text parses to the integer literal left after removing it, scaled by the digits after it |
| Decimal.ParseOneDotRejected | pkg/api/service/transaction.go:27-30 | with one '.', text whose remaining characters are not an integer literal is refused with "can't convert … to decimal" |
| Decimal.ParseNoDot | pkg/api/service/exchangerate.go:125 | text without a '.' parses to the integer it spells, with exponent 0 |
| Decimal.ParseIntegerSigned | pkg/api/service/transaction.go:27 | digits with an optional '-' read as the signed digit value |
| Decimal.SignRespectsEqual | pkg/api/service/transaction.go:34 | IsNegative and IsZero give the same answer for any two Equal decimals |
| Decimal.Equal | pkg/api/service/exchangerate_test.go:157 | Equal compares values; for two decimals of the same exponent it holds exactly when the coefficients agree |
| Decimal.IsNegative | pkg/api/service/transaction.go:34 | a negative decimal is never zero, so the `!IsZero()` half of the negative-amount test never changes its outcome |
| Decimal.IsZero | pkg/api/service/transaction.go:34 | a decimal is zero exactly when it is Equal to 0, whatever its exponent |
| Decimal.MulExact | pkg/api/service/exchangerate.go:158-160 | Mul is exact: at any scales, the product's value is the product of the values |
| Decimal.Mul | pkg/api/service/exchangerate.go:158-160 | the product is zero exactly when a factor is, and negative exactly when the factors have opposite non-zero signs |
| Decimal.Round | pkg/api/service/transaction.go:72-74 | Round(places) always yields exponent -places |
| Decimal.RoundNearest | pkg/api/service/transaction.go:72-74 | Round(places) lies within half a unit of the last place, and an exact half moves away from zero |
| Decimal.RoundCoarse | pkg/api/service/transaction.go:72-74 | a value with fewer fraction digits than asked keeps its value |
| Decimal.RoundNeg | pkg/api/service/transaction.go:72-74 | rounding commutes with negation |
| Decimal.RoundIdempotent | pkg/api/service/transaction.go:72-74 | rounding a rounded value changes nothing |
| Decimal.StringNoTrailingZeros | pkg/api/service/transaction.go:47 | String never ends in '.' or in a zero after the '.' |
| Decimal.String | pkg/api/service/transaction.go:47 | the text is never empty and starts with '-' exactly for a negative value |
| Decimal.ParseString | pkg/api/service/transaction.go:47 | NewFromString(d.String()) succeeds and is Equal to d |
| Decimal.ParseSplitText | pkg/api/service/exchangerate.go:143 | the text printed for a negative exponent parses back to the same value |
| Dates.DaysIn | pkg/api/service/exchangerate.go:154-156 | a month has 28 to 31 days |
| Dates.BeforeStrictTotal | pkg/api/service/exchangerate.go:116 | Before is irreflexive, transitive and total on distinct instants |
| Dates.Before | pkg/api/service/exchangerate.go:116 | an instant is never before itself, nor before an instant on an earlier date |
| Dates.EarlierMonth | pkg/api/service/exchangerate.go:116 | a date in an earlier month is earlier |
| Dates.RollForward | pkg/api/service/exchangerate.go:154-156 | rolling a day past the end of its month forward always gives a valid date |
| Dates.AddMonths | pkg/api/service/exchangerate.go:154-156 | AddDate by months keeps a date valid |
| Dates.TargetMonth | pkg/api/service/exchangerate.go:154-156 | floor normalisation of the month moves exactly the requested number of months |
| Dates.AddMonthsDay | pkg/api/service/exchangerate.go:154-156 | AddDate lands on the same day the given number of months away, or rolls the overflow into the next month |
| Dates.SixMonthsBefore | pkg/api/service/exchangerate.go:154-156 | getSixMonthBeforePurchaseDate keeps the time of day and a valid instant |
| Dates.SixMonthsBeforeIsEarlier | pkg/api/service/exchangerate.go:115-116 | the cutoff is strictly before the purchase |
| Dates.SixMonthsBeforeExamples | pkg/api/service/exchangerate_test.go:97-106 | 2023-06-30 gives 2022-12-30, 2023-02-28 gives 2022-08-28, and an August 31 overflows into March |
| Dates.FormatDateOnlyChars | pkg/api/service/exchangerate.go:52 | the formatted date holds only digits and '-' |
| Dates.FormatDateOnly | pkg/api/service/exchangerate.go:52 | a valid date of a year from 0 to 9999 prints as ten characters with '-' at positions 4 and 7 |
| Dates.ParseDateOnly | pkg/api/service/exchangerate.go:109-112 | a parsed record date is a valid midnight instant |
| Dates.ParseFormat | pkg/api/service/exchangerate.go:109 | parsing a formatted date with a four-digit year gives back that date at midnight |
| Dates.FormatParse | pkg/api/service/exchangerate.go:109 | whatever parses is the canonical DateOnly text of its date |
| UrlEscape.EscapeBytes | pkg/api/service/exchangerate.go:52 | escaped text holds only unreserved characters, '+' and '%' |
| UrlEscape.QueryEscape | pkg/api/service/exchangerate.go:52 | the escaped text holds only query-safe characters, and QueryUnescape reads back exactly the UTF-8 bytes of the input |
| UrlEscape.QueryUnescape | pkg/api/service/exchangerate.go:52 | unescaping fails only on text holding a '%'; text with no '%' or '+' reads as its own UTF-8 bytes |
| UrlEscape.UnescapeEscape | pkg/api/service/exchangerate.go:52 | QueryUnescape undoes QueryEscape on every byte string |
| UrlEscape.EscapedHasNoDelimiters | pkg/api/service/exchangerate.go:52 | an escaped name holds none of ',', '&', ':' and '=' |
| UrlEscape.UnescapeByte | pkg/api/service/exchangerate.go:52 | unescaping an escaped byte followed by more text yields that byte first |
| Text.TrimChar | pkg/api/service/exchangerate.go:49-50 | strings.Trim with one cut character returns a slice that neither starts nor ends with it |
| Text.TrimCharIdempotent | pkg/api/service/exchangerate.go:130-131 | trimming twice equals trimming once |
| Text.SplitJoin | pkg/api/service/exchangerate.go:57 | cutting text at a separator, as the receiver of the query does, and joining the parts gives back the text |
| Text.SplitOfJoin | pkg/api/service/exchangerate.go:57 | a receiver cutting a join of separator-free parts at the separator gets back exactly the parts |
| Text.Utf8String | ent/schema/transaction.go:29 | a string has at least as many UTF-8 bytes as characters |
| Text.NatToDigits | pkg/api/service/exchangerate.go:89 | the decimal digits of n, without a leading zero, denote n |
| ApiOut.RequestError | pkg/apiout/apierr.go:13-19 | an APIError reports the message of the error it wraps |
| ApiOut.ErrorReply | pkg/apiout/apiout.go:34-55 | a BadRequestErr gives 400 with an empty message; an APIError gives its status and message; anything else gives 500 "Internal Server Error" |
| ApiOut.WrongContentType | pkg/apiout/apiout.go:59-62 | a Content-Type other than application/json is answered 415 whatever the body holds |
| ApiOut.DecodeSucceeds | pkg/apiout/apiout.go:58-112 | decoding succeeds exactly when the header is right, one value decodes and the next Decode reports EOF; the value is the one decoded |
| ApiOut.FailureStatus | pkg/apiout/apiout.go:69-103 | recognised decoding failures give 400, an oversized body 413, and an unrecognised error is returned unchanged and answered 500 |
| ApiOut.ClassifyFailure | pkg/apiout/apiout.go:69-103 | every failure of the decoder's own kinds (syntax, unexpected end, type mismatch, empty body) gives an APIError with status 400; the result is never a BadRequestErr; an unrecognised error is returned unchanged |
| ApiOut.DecodeJSONBody | pkg/apiout/apiout.go:58-112 | no error it returns is a BadRequestErr, so apiout.Error always shows its message; a plain error (answered 500) comes only from an unrecognised failure of the first Decode |
| ApiOut.TrailingValue | pkg/apiout/apiout.go:105-109 | a second JSON value is answered 400 "request body must only contain a single JSON object" |
| Entities.Details | pkg/api/service/exchangerate.go:136-141 | the reported row keeps the stored id text, date and description |
| ExchangeRate.Unquote | pkg/api/service/exchangerate.go:48-50 | the trimmed name has no quote left at either end |
| ExchangeRate.FilterPartsPlain | pkg/api/service/exchangerate.go:52 | the formatted date and the escaped names hold neither ',' nor '&' |
| ExchangeRate.Filter | pkg/api/service/exchangerate.go:48-52 | the filter never holds an '&', so it cannot break the query it is placed in |
| ExchangeRate.FilterClauses | pkg/api/service/exchangerate.go:52 | the filter splits at ',' into exactly the date clause and the country-currency clause |
| ExchangeRate.FixedParamsPlain | pkg/api/service/exchangerate.go:53-57 | the fields, sort and page-size parameters hold no '&' |
| ExchangeRate.RawQuery | pkg/api/service/exchangerate.go:52-57 | the query splits at '&' into exactly filter, fields, sort and page[size]=1, in that order |
| ExchangeRate.Operation | pkg/api/service/exchangerate.go:66-77 | an attempt succeeds exactly when the request got a response whose status is not 429 |
| ExchangeRate.FirstSettled | pkg/api/service/exchangerate.go:79-85 | Retry stops at the first attempt that is not retried: every earlier one was a 429 within the one-minute budget |
| ExchangeRate.FirstSettledUnique | pkg/api/service/exchangerate.go:79-85 | that attempt is the only index with this property |
| ExchangeRate.Retry | pkg/api/service/exchangerate.go:79-85 | the loop stops at the first attempt that is not retried and returns that attempt's result and response |
| ExchangeRate.GetExchangeRate | pkg/api/service/exchangerate.go:41-122 | builds the query text and returns what the first settled attempt leads to |
| ExchangeRate.CheckResponseFound | pkg/api/service/exchangerate.go:87-121 | a quote is returned exactly when the status is 200, the list is not empty, the date parses and is not before the cutoff; it is the first item |
| ExchangeRate.CheckResponse | pkg/api/service/exchangerate.go:87-121 | every error it returns is answered 400 or 500 |
| ExchangeRate.Settle | pkg/api/service/exchangerate.go:66-121 | the lookup aborts exactly after a transport failure; every error it returns is answered 400 or 500 |
| ExchangeRate.CheckResponseStatus | pkg/api/service/exchangerate.go:87-118 | a non-200 status gives 500; a body the JSON decoder refuses gives 500 with its plain error; an empty list gives 400 "cannot be converted"; an unparsable date gives 500; a too-old date gives 400 |
| ExchangeRate.CutoffDay | pkg/api/service/exchangerate.go:115-118 | a quote dated on the cutoff day is accepted for a purchase at midnight and refused for any later time that day |
| ExchangeRate.RecentQuoteAccepted | pkg/api/service/exchangerate.go:114-121 | a quote dated on or after the purchase day is always accepted |
| ExchangeRate.ThrottledThenAnswered | pkg/api/service/exchangerate.go:72-85 | a 429 within the budget followed by an answer is settled by the answer |
| ExchangeRate.BudgetExhausted | pkg/api/service/exchangerate.go:79-85 | a 429 past the one-minute budget ends with "too many request error", answered 500 |
| ExchangeRate.TransportErrorStops | pkg/api/service/exchangerate.go:67-70 | a transport error stops retrying at once |
| ExchangeRate.ConvertAmount | pkg/api/service/exchangerate.go:158-160 | the converted amount is the exact product of the amount and the rate at every scale |
| ExchangeRate.ConvertAmountExamples | pkg/api/service/exchangerate_test.go:136-151 | 100 × 130 equals 13000, and 100 × 132.90 equals 13290 |
| ExchangeRate.ConvertCurrency | pkg/api/service/exchangerate.go:124-152 | fails exactly when the rate does not parse, with the parse error; otherwise reports the row, the unquoted names, and the rate and its date verbatim |
| ExchangeRate.ConvertedAmountExact | pkg/api/service/exchangerate.go:133-143 | the reported converted amount parses back Equal to amount × rate |
| TransactionService.RoundToNearestCent | pkg/api/service/transaction.go:72-74 | two fraction digits, within half a cent (an exact half away from zero), and rounding again changes nothing |
| TransactionService.NewRow | pkg/api/service/transaction.go:38-39 | the row keeps the new id, the current time and the description, and holds the amount with exactly two fraction places, within half a cent of the amount given |
| TransactionService.Service.constructor | pkg/api/service/transaction.go:19-21 | the table starts empty and valid |
| TransactionService.Service.Save | ent/schema/transaction.go:29 | a description of at most 50 bytes is stored under the row's id; a longer one is refused with the validator message and nothing changes |
| TransactionService.Service.GetPurchaseDetailsByTransactionId | pkg/api/service/transaction.go:55-64 | the stored row exactly when the id is in the table, otherwise a 404 "given transaction id not found" |
| TransactionService.Service.CreateNewPurchaseTransaction | pkg/api/service/transaction.go:24-52 | a parse error or a negative amount is refused as a bad request and nothing changes; otherwise the rounded row is stored under the new id and reported, unless the description is too long |
| TransactionService.ReportedAmount | pkg/api/service/transaction.go:46-47 | the reported amount text parses back Equal to the stored amount |
| TransactionService.RoundDown | pkg/api/service/transaction_test.go:98-102 | 12.6544 is reported as "12.65" |
| TransactionService.RoundUp | pkg/api/service/transaction_test.go:113-117 | 12.65766 is reported as "12.66" |
| TransactionService.RoundKeepsShortValues | pkg/api/service/transaction_test.go:103-112 | 0 is reported as "0" and 1.5 as "1.5" |
| TransactionService.AmountInCents | pkg/api/service/transaction_test.go:25-33 | "123.16" parses to 12316 hundredths |
| TransactionService.CentsReportedUnchanged | pkg/api/service/transaction_test.go:25-33 | 123.16 is stored unchanged and reported as "123.16" |
| TransactionService.AmountZero | pkg/api/service/transaction_test.go:34-42 | "0" is accepted and reported as "0" |
| TransactionService.AmountNegative | pkg/api/service/transaction_test.go:43-51 | "-123.123" parses to a negative amount, which is refused |
| TransactionService.AmountMalformed | pkg/api/service/transaction_test.go:52-60 | "-123.123abcd" is refused with "can't convert" |
| Handlers.AnswerLookupCases | pkg/api/transaction.go:31-47 | a lookup error is answered unchanged; a rate that does not parse gives 500; a 200 reports the row, the unquoted names, the rate verbatim and an amount Equal to amount × rate |
| Handlers.AnswerLookup | pkg/api/transaction.go:31-47 | the handler writes nothing exactly when the lookup ended in a transport failure |
| Handlers.GetPurchaseTransaction | pkg/api/transaction.go:15-48 | an unparsable id gives 400 "invalid transaction id provided"; a missing row gives 404; otherwise the rate is looked up for the row's date and the answer follows from the settled lookup |
| Handlers.PostPurchaseTransaction | pkg/api/transaction.go:51-72 | a decoding error is answered as is; after decoding, 201 with the stored row exactly when the amount parses, is not negative and the description fits; any service error is answered 400 with an empty message and nothing stored |

## Left out

- Decimal.Parse: exponent notation ("1.5e3") is not modelled and is refused, while NewFromString accepts it; the int32 limit on the exponent is not modelled either.
- Dates.ParseDateOnly: only the four-digit-year, two-digit-month, two-digit-day form is modelled.
- Dates.SixMonthsBefore, ExchangeRate.CutoffDay, Dates.ParseDateOnly: time zones are not modelled and every instant is in UTC; `AddDate` and `Before` act in the stored time's location, which the model takes to be UTC.
- ApiOut.ErrorReply: `errors.As` is modelled on the outermost error only, since no error reaching apiout.Error wraps one of the package's own types.
- ApiOut.DecodeJSONBody: the JSON decoder, `DisallowUnknownFields` and the 1 MB `MaxBytesReader` are not modelled; each Decode call is a parameter that says what it reported.
- ExchangeRate.GetExchangeRate: HTTP, the network and the backoff's timing are parameters: each attempt says what it got, how much time had passed and the next wait.
- ExchangeRate.TransportErrorStops: the nil-response panic after a transport error is not modelled as such; the model ends the lookup as TransportAborted and the handler writes nothing (Handlers.Written.Aborted).
- ExchangeRate.CheckResponse: JSON decoding of the rate API's body is a parameter (a decoded list or the decoder's error message); the response body left open on early returns is not modelled.
- Handlers.GetPurchaseTransaction: `uuid.Parse` is a function parameter; the handler reads the table directly, as the code does with `a.Db`; the handler's `ExchangeRateService` is taken to be ExchangeRateGetter, although the `API` struct in pkg/api/api.go declares no such field.
- Handlers.PostPurchaseTransaction: `apiout.JSON`'s encoding of the body is not modelled; the result is the value written with its status.
- TransactionService.Service.Save: database failures other than the description validator (connection errors, duplicate keys) are not modelled; the new id is required to be unused, as uuid.New's ids are taken to be.
- Handlers.GetPurchaseTransaction, TransactionService.Service.GetPurchaseDetailsByTransactionId: any error from the query's `First(ctx)` is answered 404 "given transaction id not found", a database failure included; the model has only the id being absent.
- TransactionService.Service.CreateNewPurchaseTransaction: `time.Now().UTC()` and `uuid.New` are parameters; the database's precision for the stored time and the numeric column is not modelled.
- UrlEscape.QueryEscape, ExchangeRate.Filter: Go strings are byte strings, so a country or currency parameter holding invalid UTF-8 cannot be represented; the model's strings are sequences of Unicode characters.
- Request contexts, logging, configuration, the OpenAPI request validation middleware and the server start-up are not part of this model.
- Floating-point inputs of the tests (`decimal.NewFromFloat`) are written as the exact decimals they denote.
