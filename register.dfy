/**
 * The cash register: it owns the holdings of the till and performs
 * transactions against them, changing them only when a transaction succeeds.
 */
module Register {
  import opened Money
  import opened TransactionOutcome
  import opened Greedy
  import opened Transactions

  /**
   * Adds every entry of `from` to a copy of `into`, one denomination at a time;
   * the result holds, for each denomination, the sum of the two counts.
   */
  method AddAll(into: Change, from: Change) returns (r: Change)
    ensures r == Merge(into, from)
  {
    r := into;
    var todo := from.Keys;
    assert from - todo == map[];
    while todo != {}
      invariant todo <= from.Keys
      invariant r == Merge(into, from - todo)
      decreases todo
    {
      var element :| element in todo;
      MergeStep(into, from, todo, element);
      r := Add(r, element, from[element]);
      todo := todo - {element};
    }
    assert from - todo == from;
  }

  class CashRegister {
    /** The holdings of the till. */
    var change: Change
    /** The denominations in the order the greedy pass visits them. */
    const catalog: seq<MonetaryElement>

    /** The catalog is valid and the holdings use catalog denominations only. */
    ghost predicate Valid()
      reads this
    {
      ValidCatalog(catalog) && Within(change, catalog)
    }

    /** A register holding `initial`. */
    constructor (initial: Change, catalog: seq<MonetaryElement>)
      requires ValidCatalog(catalog) && Within(initial, catalog)
      ensures Valid()
      ensures change == initial && this.catalog == catalog
    {
      this.change := initial;
      this.catalog := catalog;
    }

    /**
     * `performTransaction(price, amountPaid)`: validates the price and the
     * payment, keeps an exact payment, and otherwise computes the change on
     * the register plus the payment before touching the holdings.
     */
    method PerformTransaction(price: int, amountPaid: Change) returns (r: Outcome)
      requires Valid() && Within(amountPaid, catalog)
      modifies this
      ensures Valid()
      ensures (r, change) == Transaction(old(change), price, amountPaid, catalog)
      ensures r.Failure? ==> change == old(change)
      ensures r.Success? ==>
                && Total(r.change) + price == Total(amountPaid)
                && Total(change) == Total(old(change)) + price
    {
      Conservation(change, price, amountPaid, catalog);
      if price == 0 {
        return Failure(InvalidPrice);
      }
      var paid := TotalOf(amountPaid);
      if paid < price {
        return Failure(InsufficientPayment);
      }

      var changeDue := paid - price;

      if changeDue == 0 {
        AddChange(amountPaid);
        return Success(map[]);
      }

      r := Settle(price, changeDue, amountPaid);
    }

    /**
     * The rest of `performTransaction` once change is due: build the pool of
     * holdings plus payment, compute the change on it, and only if that
     * succeeds add the payment to the holdings and take the change out.
     */
    method Settle(price: int, changeDue: nat, amountPaid: Change) returns (r: Outcome)
      requires Valid() && Within(amountPaid, catalog)
      requires price != 0 && changeDue > 0 && changeDue == Total(amountPaid) - price
      modifies this
      ensures Valid()
      ensures (r, change) == Transaction(old(change), price, amountPaid, catalog)
    {
      ChangeDue(change, price, amountPaid, catalog, changeDue);
      // The pool: the register's holdings plus the payment.
      var available := AddAll(map[], change);
      available := AddAll(available, amountPaid);
      MergeEmpty(change);

      var changeToReturn := CalculateChange(changeDue, available, catalog);
      if changeToReturn.Failure? {
        return changeToReturn;
      }

      AddChange(amountPaid);
      RemoveChange(changeToReturn.change);

      return changeToReturn;
    }

    /** `addChange(amountPaid)`: every entry of the payment is added to the holdings. */
    method AddChange(amountPaid: Change)
      requires Valid() && Within(amountPaid, catalog)
      modifies this
      ensures Valid()
      ensures change == Merge(old(change), amountPaid)
    {
      var todo := amountPaid.Keys;
      assert amountPaid - todo == map[];
      while todo != {}
        invariant todo <= amountPaid.Keys
        invariant change.Keys == old(change).Keys + (amountPaid.Keys - todo)
        invariant Valid()
        invariant change == Merge(old(change), amountPaid - todo)
        decreases todo
      {
        var element :| element in todo;
        MergeStep(old(change), amountPaid, todo, element);
        change := Add(change, element, amountPaid[element]);
        todo := todo - {element};
      }
      assert amountPaid - todo == amountPaid;
    }

    /**
     * Takes every entry of `changeToReturn` out of the holdings. The holdings
     * cover the change, so each removal is within the stored count.
     */
    method RemoveChange(changeToReturn: Change)
      requires Valid() && Covers(change, changeToReturn)
      modifies this
      ensures Valid()
      ensures change == Subtract(old(change), changeToReturn)
    {
      var todo := changeToReturn.Keys;
      assert changeToReturn - todo == map[];
      while todo != {}
        invariant todo <= changeToReturn.Keys
        invariant change == Subtract(old(change), changeToReturn - todo)
        invariant change.Keys == old(change).Keys
        invariant Valid()
        decreases todo
      {
        var element :| element in todo;
        SubtractStep(old(change), changeToReturn, todo, element);
        change := Remove(change, element, changeToReturn[element]);
        todo := todo - {element};
      }
      assert changeToReturn - todo == changeToReturn;
    }
  }
}
