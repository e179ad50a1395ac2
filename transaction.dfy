/**
 * What one call of `performTransaction` does, as a function of the register's
 * holdings before the call: the outcome, and the holdings afterwards.
 */
module Transactions {
  import opened Money
  import opened TransactionOutcome
  import opened Greedy

  /**
   * The transaction on holdings `register`: reject a zero price, reject an
   * insufficient payment, keep an exact payment, and otherwise run the greedy
   * pass on the register plus the payment. The holdings change only when the
   * transaction succeeds: the payment goes in and the change comes out.
   */
  ghost function Transaction(register: Change, price: int, amountPaid: Change, elements: seq<MonetaryElement>): (r: (Outcome, Change))
    requires ValidCatalog(elements)
    ensures r.0.Failure? ==> r.1 == register
  {
    if price == 0 then (Failure(InvalidPrice), register)
    else if Total(amountPaid) < price then (Failure(InsufficientPayment), register)
    else if Total(amountPaid) - price == 0 then (Success(map[]), Merge(register, amountPaid))
    else
      var pool := Merge(register, amountPaid);
      var outcome := GreedyChange(Total(amountPaid) - price, pool, elements);
      if outcome.Failure? then (outcome, register)
      else
        GreedyCovers(Total(amountPaid) - price, pool, elements);
        (outcome, Subtract(pool, outcome.change))
  }

  /**
   * When change is due, the outcome is the greedy pass over the holdings plus
   * the payment, and the holdings afterwards are that pool minus the change
   * if the pass succeeds, or the holdings before the call if it fails.
   */
  lemma ChangeDue(register: Change, price: int, amountPaid: Change, elements: seq<MonetaryElement>, due: nat)
    requires ValidCatalog(elements)
    requires price != 0 && due > 0 && due == Total(amountPaid) - price
    ensures var pool := Merge(register, amountPaid);
            var outcome := GreedyChange(due, pool, elements);
            && Transaction(register, price, amountPaid, elements).0 == outcome
            && (outcome.Failure? ==> Transaction(register, price, amountPaid, elements).1 == register)
            && (outcome.Success? ==>
                  && Covers(pool, outcome.change)
                  && Transaction(register, price, amountPaid, elements).1 == Subtract(pool, outcome.change))
  {
    GreedyCovers(due, Merge(register, amountPaid), elements);
  }

  /** A zero price fails with `InvalidPrice`, whatever is paid, and the holdings stay as they are. */
  lemma ZeroPriceRejected(register: Change, amountPaid: Change, elements: seq<MonetaryElement>)
    requires ValidCatalog(elements)
    ensures Transaction(register, 0, amountPaid, elements) == (Failure(InvalidPrice), register)
  {
  }

  /**
   * A non-zero price above the value of the payment fails with
   * `InsufficientPayment`; the holdings stay as they are.
   */
  lemma InsufficientPaymentRejected(register: Change, price: int, amountPaid: Change, elements: seq<MonetaryElement>)
    requires ValidCatalog(elements)
    requires price != 0 && Total(amountPaid) < price
    ensures Transaction(register, price, amountPaid, elements) == (Failure(InsufficientPayment), register)
  {
  }

  /** An empty payment fails with `InsufficientPayment` for every positive price. */
  lemma EmptyPaymentRejected(register: Change, price: int, elements: seq<MonetaryElement>)
    requires ValidCatalog(elements)
    requires price > 0
    ensures Transaction(register, price, map[], elements) == (Failure(InsufficientPayment), register)
  {
    MergeEmpty(register);
  }

  /**
   * Only a price of exactly 0 is rejected as invalid: a negative price passes
   * both checks, and the change due is then more than the payment itself.
   */
  lemma NegativePriceAccepted(register: Change, price: int, amountPaid: Change, elements: seq<MonetaryElement>)
    requires ValidCatalog(elements)
    requires price < 0
    ensures Transaction(register, price, amountPaid, elements).0 != Failure(InvalidPrice)
    ensures Transaction(register, price, amountPaid, elements).0 != Failure(InsufficientPayment)
    ensures Transaction(register, price, amountPaid, elements).0.Success? ==>
              Total(Transaction(register, price, amountPaid, elements).0.change) > Total(amountPaid)
  {
    Conservation(register, price, amountPaid, elements);
  }

  /**
   * An exact payment succeeds with change worth 0; every count of the
   * payment is added to the holdings, whose total grows by the price.
   */
  lemma ExactPayment(register: Change, price: int, amountPaid: Change, elements: seq<MonetaryElement>)
    requires ValidCatalog(elements)
    requires price != 0 && Total(amountPaid) == price
    ensures var (outcome, after) := Transaction(register, price, amountPaid, elements);
            && outcome.Success? && Total(outcome.change) == 0
            && (forall e :: Count(after, e) == Count(register, e) + Count(amountPaid, e))
            && Total(after) == Total(register) + price
  {
    TotalMerge(register, amountPaid);
  }

  /** Every failure leaves the holdings exactly as they were. */
  lemma FailureIsAtomic(register: Change, price: int, amountPaid: Change, elements: seq<MonetaryElement>)
    requires ValidCatalog(elements)
    ensures Transaction(register, price, amountPaid, elements).0.Failure? ==>
              Transaction(register, price, amountPaid, elements).1 == register
  {
  }

  /**
   * A success returns change that, with the price, adds up to the payment;
   * the holdings grow by exactly the price.
   */
  lemma Conservation(register: Change, price: int, amountPaid: Change, elements: seq<MonetaryElement>)
    requires ValidCatalog(elements)
    ensures var (outcome, after) := Transaction(register, price, amountPaid, elements);
            outcome.Success? ==>
              && Total(outcome.change) + price == Total(amountPaid)
              && Total(after) == Total(register) + price
  {
    var (outcome, after) := Transaction(register, price, amountPaid, elements);
    if outcome.Success? {
      var pool := Merge(register, amountPaid);
      TotalMerge(register, amountPaid);
      if Total(amountPaid) - price != 0 {
        GreedyConserves(Total(amountPaid) - price, pool, elements);
        GreedyCovers(Total(amountPaid) - price, pool, elements);
        TotalSubtract(pool, outcome.change);
      }
    }
  }

  /**
   * When change is due, the pool the greedy pass draws on is the holdings
   * after the payment is added; it covers the change, so every removal of the
   * change is within the stored count; and the change only holds catalog
   * denominations.
   */
  lemma RemovalsWithinPool(register: Change, price: int, amountPaid: Change, elements: seq<MonetaryElement>)
    requires ValidCatalog(elements)
    requires price != 0 && Total(amountPaid) > price
    ensures Merge(Merge(map[], register), amountPaid) == Merge(register, amountPaid)
    ensures var (outcome, after) := Transaction(register, price, amountPaid, elements);
            outcome.Success? ==>
              && Covers(Merge(register, amountPaid), outcome.change)
              && Within(outcome.change, elements)
              && after == Subtract(Merge(register, amountPaid), outcome.change)
  {
    MergeEmpty(register);
    GreedyCovers(Total(amountPaid) - price, Merge(register, amountPaid), elements);
  }

  /**
   * `NotEnoughChange` is reported exactly when the greedy pass over the
   * register plus the payment ends owing something that no catalog
   * denomination can pay off any more.
   */
  lemma NotEnoughChangeExactly(register: Change, price: int, amountPaid: Change, elements: seq<MonetaryElement>)
    requires ValidCatalog(elements)
    requires price != 0 && Total(amountPaid) > price
    ensures var pool := Merge(register, amountPaid);
            var (out, left) := Pass(Total(amountPaid) - price, pool, elements, map[]);
            && (Transaction(register, price, amountPaid, elements).0 == Failure(NotEnoughChange) <==> left > 0)
            && (left > 0 ==> forall e :: e in elements ==> Count(out, e) == Count(pool, e) || left < e.minorValue)
  {
    GreedyFailure(Total(amountPaid) - price, Merge(register, amountPaid), elements);
  }

  /** Holdings and payment of catalog denominations only leave holdings of catalog denominations only. */
  lemma StaysWithinCatalog(register: Change, price: int, amountPaid: Change, elements: seq<MonetaryElement>)
    requires ValidCatalog(elements)
    requires Within(register, elements) && Within(amountPaid, elements)
    ensures Within(Transaction(register, price, amountPaid, elements).1, elements)
  {
  }
}
