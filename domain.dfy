/** The catalogue's value types: `Money` and `Product`. Decimal amounts are
    carried as `real`, which keeps a `decimal`'s value but not its scale
    (`1.0` and `1.00` are the same `real`). */
module Domain {
  import opened Wrappers
  import opened Text

  /** The currency used when none is given. */
  const DefaultCurrency: string := "USD"

  /** A non-negative amount in a trimmed, non-blank currency. */
  datatype Money = Money(amount: real, currency: string) {
    predicate Valid() {
      && amount >= 0.0
      && currency != []
      && !IsWhiteSpace(currency[0])
      && !IsWhiteSpace(currency[|currency| - 1])
    }
  }

  /** The exception the `Money` constructor throws. */
  datatype MoneyError = AmountOutOfRange(paramName: string)

  /** The `Money` constructor: a negative amount throws; a null or blank
      currency becomes the default, any other is trimmed. */
  function NewMoney(amount: real, currency: Option<string>): (r: Result<Money, MoneyError>)
    ensures r.Success? <==> amount >= 0.0
    ensures r.Failure? ==> r.error == AmountOutOfRange("amount")
    ensures r.Success? ==> r.value.amount == amount && r.value.Valid()
    ensures r.Success? && IsNullOrWhiteSpace(currency) ==> r.value.currency == DefaultCurrency
    ensures r.Success? && !IsNullOrWhiteSpace(currency) ==>
              r.value.currency == Trim(currency.value)
  {
    if amount < 0.0 then Failure(AmountOutOfRange("amount"))
    else
      var c := if IsNullOrWhiteSpace(currency) then DefaultCurrency else Trim(currency.value);
      Success(Money(amount, c))
  }

  /** Constructing from a valid `Money` gives it back: the constructor's
      normalisation leaves normalised values alone. */
  lemma NewMoneyFixesValid(m: Money)
    requires m.Valid()
    ensures NewMoney(m.amount, Some(m.currency)) == Success(m)
  {
    assert TrimStart(m.currency) == m.currency;
    assert TrimEnd(m.currency) == m.currency;
    assert !IsBlank(m.currency) by {
      assert !IsWhiteSpace(m.currency[0]);
    }
  }

  /** A catalogue entry as read from the data file. Reference-typed fields
      may be null (`None`), as in the C# class; `id` is the lookup key. */
  datatype Product = Product(
    id: Option<string>,
    name: Option<string>,
    imageUrl: Option<string>,
    description: Option<string>,
    price: real,
    currency: Option<string>,
    rating: real,
    specifications: map<string, string>)

  /** A `Product` whose fields were not set: null strings, zero amounts,
      currency "USD" and no specifications. The data file yields this for
      an object with no recognised member. */
  const DefaultProduct: Product :=
    Product(None, None, None, None, 0.0, Some(DefaultCurrency), 0.0, map[])
}
