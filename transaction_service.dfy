/**
 * pkg/api/service/transaction.go: recording a purchase (amount checked and
 * rounded to the cent) and reading one back by id. The ent client's
 * transaction table is the service's state: a map from id to row.
 */
module TransactionService {
  import opened Wrappers
  import opened Text
  import opened Decimal
  import opened Dates
  import opened ApiOut
  import opened Entities

  /** field.String("description").MaxLen(50): ent's MaxLen counts bytes. */
  const DescriptionMaxLen := 50

  const DescriptionTooLong :=
    "ent: validator failed for field \"Transaction.description\": value is greater than the required length"

  const NegativeAmount := "amount cannot be negative number"

  const TransactionNotFound := "given transaction id not found"

  predicate Storable(t: Transaction)
  {
    |Utf8String(t.description)| <= DescriptionMaxLen
  }

  /**
   * RoundToNearestCent: Round(2). The result has exactly two fraction
   * places, lies within half a cent of the amount (an exact half cent moves
   * away from zero), and rounding it again changes nothing.
   */
  function RoundToNearestCent(d: Decimal): (r: Decimal)
    ensures r.exp == -2
    ensures var e := Min(d.exp, -2);
            RoundedWithin(Scaled(r, e), Scaled(d, e), Pow10(-2 - e))
    ensures Round(r, 2) == r
  {
    RoundNearest(d, 2);
    RoundIdempotent(d, 2);
    Round(d, 2)
  }

  /**
   * The row a create stores: the new id, the current time and the
   * description as given, and an amount of exactly two fraction places
   * within half a cent of the amount given.
   */
  function NewRow(payload: CreatePayload, amount: Decimal, now: Instant, newId: Uuid): (t: Transaction)
    ensures t.id == newId && t.date == now && t.description == payload.description
    ensures t.amountInUsd.exp == -2
    ensures var e := Min(amount.exp, -2);
            RoundedWithin(Scaled(t.amountInUsd, e), Scaled(amount, e), Pow10(-2 - e))
  {
    Transaction(newId, now, RoundToNearestCent(amount), payload.description)
  }

  /** The service with its storage: the rows of the transaction table, by id. */
  class Service {
    var rows: map<Uuid, Transaction>

    constructor()
      ensures rows == map[] && Valid()
    {
      rows := map[];
    }

    /** Every row is filed under its own id, carries a real time, and passed the description validator. */
    predicate Valid()
      reads this
    {
      forall id | id in rows :: rows[id].id == id && ValidInstant(rows[id].date) && Storable(rows[id])
    }

    /**
     * Create().…Save(ctx): the description validator runs first and a
     * rejected row leaves the table as it was; otherwise the row is added.
     */
    method Save(t: Transaction) returns (r: Result<Transaction, Error>)
      requires Valid() && ValidInstant(t.date)
      modifies this
      ensures Valid()
      ensures Storable(t) ==> r == Ok(t) && rows == old(rows)[t.id := t]
      ensures !Storable(t) ==> r == Err(Plain(DescriptionTooLong)) && rows == old(rows)
    {
      if |Utf8String(t.description)| > DescriptionMaxLen {
        return Err(Plain(DescriptionTooLong));
      }
      rows := rows[t.id := t];
      r := Ok(t);
    }

    /**
     * GetPurchaseDetailsByTransactionId: the stored row, or an APIError with
     * status 404 when the table has none with that id.
     */
    function GetPurchaseDetailsByTransactionId(id: Uuid): (r: Result<Transaction, Error>)
      reads this
      ensures r.Ok? <==> id in rows
      ensures r.Ok? ==> r.value == rows[id]
      ensures r.Err? ==> r.error == RequestError(TransactionNotFound, StatusNotFound)
    {
      if id in rows then Ok(rows[id]) else Err(RequestError(TransactionNotFound, StatusNotFound))
    }

    /**
     * CreateNewPurchaseTransaction: the amount must parse (the parse error is
     * reported with the amount quoted) and must not be negative; it is
     * rounded to the cent and stored with the current time and a new id,
     * and the stored row is reported with the rounded amount's text.
     * `now` is time.Now().UTC() and `newId` the id the table's default
     * draws (uuid.New), which is not already in use.
     */
    method CreateNewPurchaseTransaction(payload: CreatePayload, now: Instant, newId: Uuid)
      returns (r: Result<TransactionDetails, Error>)
      requires Valid() && ValidInstant(now) && newId !in rows
      modifies this
      ensures Valid()
      ensures Parse(payload.amount).Err? ==>
                r == Err(BadRequest("unable to parse '" + payload.amount + "': " + Parse(payload.amount).error))
                && rows == old(rows)
      ensures Parse(payload.amount).Ok? && IsNegative(Parse(payload.amount).value) ==>
                r == Err(BadRequest(NegativeAmount)) && rows == old(rows)
      ensures Parse(payload.amount).Ok? && !IsNegative(Parse(payload.amount).value) ==>
                var stored := NewRow(payload, Parse(payload.amount).value, now, newId);
                if Storable(stored) then
                  r == Ok(Details(stored)) && rows == old(rows)[newId := stored]
                  && GetPurchaseDetailsByTransactionId(newId) == Ok(stored)
                else r == Err(Plain(DescriptionTooLong)) && rows == old(rows)
    {
      var parsed := Parse(payload.amount);
      if parsed.Err? {
        return Err(BadRequest("unable to parse '" + payload.amount + "': " + parsed.error));
      }
      var amount := parsed.value;
      if IsNegative(amount) && !IsZero(amount) {
        return Err(BadRequest(NegativeAmount));
      }
      var rounded := RoundToNearestCent(amount);
      var saved := Save(Transaction(newId, now, rounded, payload.description));
      if saved.Err? {
        return Err(saved.error);
      }
      var t := saved.value;
      r := Ok(TransactionDetails(String(rounded), t.date, t.description, t.id.text));
    }
  }

  /** The reported amount reads back as the stored, rounded amount. */
  lemma ReportedAmount(d: Decimal)
    ensures Parse(String(RoundToNearestCent(d))).Ok?
    ensures Equal(Parse(String(RoundToNearestCent(d))).value, RoundToNearestCent(d))
  {
    ParseString(RoundToNearestCent(d));
  }

  /** 12.6544 rounds down to 12.65. */
  lemma RoundDown()
    ensures String(RoundToNearestCent(Decimal(126544, -4))) == "12.65"
  {
    assert RoundToNearestCent(Decimal(126544, -4)) == Decimal(1265, -2);
    assert NatToDigits(1265) == "1265";
  }

  /** 12.65766 rounds up to 12.66. */
  lemma RoundUp()
    ensures String(RoundToNearestCent(Decimal(1265766, -5))) == "12.66"
  {
    assert RoundToNearestCent(Decimal(1265766, -5)) == Decimal(1266, -2);
    assert NatToDigits(1266) == "1266";
  }

  /** Zero prints as "0", and 1.5 keeps one fraction digit: String drops the trailing zero Round(2) leaves. */
  lemma RoundKeepsShortValues()
    ensures String(RoundToNearestCent(Decimal(0, 0))) == "0"
    ensures String(RoundToNearestCent(Decimal(15, -1))) == "1.5"
  {
    assert RoundToNearestCent(Decimal(0, 0)) == Decimal(0, -2);
    assert RoundToNearestCent(Decimal(15, -1)) == Decimal(150, -2);
    assert NatToDigits(150) == "150";
  }

  /** "123.16" parses to 12316 hundredths. */
  lemma AmountInCents()
    ensures Parse("123.16") == Ok(Decimal(12316, -2))
  {
    assert DigitsValue("123" + "16") == 12316 by {
      assert "123" + "16" == "12316";
      assert NatToDigits(12316) == "12316";
    }
    assert Render(false, "123", "16") == "123.16";
    ParseNumber(false, "123", "16");
  }

  /** An amount already in cents is stored and reported unchanged: 123.16 is "123.16". */
  lemma CentsReportedUnchanged()
    ensures RoundToNearestCent(Decimal(12316, -2)) == Decimal(12316, -2)
    ensures String(Decimal(12316, -2)) == "123.16"
  {
    assert NatToDigits(12316) == "12316";
  }

  /** "0" parses to zero, which is not refused as negative and is reported as "0". */
  lemma AmountZero()
    ensures Parse("0") == Ok(Decimal(0, 0)) && !IsNegative(Decimal(0, 0))
    ensures String(RoundToNearestCent(Decimal(0, 0))) == "0"
  {
    ParseNumber(false, "0", "");
    assert Render(false, "0", "") == "0";
    RoundKeepsShortValues();
  }

  /** "-123.123" parses, to a negative amount that is refused. */
  lemma AmountNegative()
    ensures Parse("-123.123") == Ok(Decimal(-123123, -3)) && IsNegative(Decimal(-123123, -3))
  {
    assert DigitsValue("123" + "123") == 123123 by {
      assert "123" + "123" == "123123";
      assert NatToDigits(123123) == "123123";
    }
    assert Render(true, "123", "123") == "-123.123";
    ParseNumber(true, "123", "123");
  }

  /** "-123.123abcd" does not parse: the create is refused with "can't convert". */
  lemma AmountMalformed()
    ensures Parse("-123.123abcd") == Err("can't convert " + "-123.123abcd" + " to decimal")
  {
    var head, tail := "-123", "123abcd";
    assert ParseInteger(head + tail).None? by {
      assert (head + tail)[1..][6] == 'a';
    }
    ParseOneDotRejected(head, tail);
    assert head + "." + tail == "-123.123abcd";
  }
}
