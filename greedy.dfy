/**
 * The change computation of the register: one greedy pass over the catalog in
 * descending order of value, drawing on a pool of available pieces.
 */
module Greedy {
  import opened Money
  import opened TransactionOutcome

  /** An integer `coerceAtMost`: the smaller of the two. */
  function Min(a: nat, b: nat): (m: nat)
    ensures m <= a && m <= b && (m == a || m == b)
  {
    if a <= b then a else b
  }

  /**
   * How many pieces of `e` one greedy step takes: as many as fit into what is
   * still owed, but no more than the pool holds. This is the largest such
   * count: either the pool runs out of `e`, or one more piece would overpay.
   */
  function Take(remaining: nat, pool: Change, e: MonetaryElement): (n: nat)
    requires e.minorValue > 0
    ensures n <= Count(pool, e)
    ensures 0 <= n * e.minorValue <= remaining
    ensures n == Count(pool, e) || remaining - n * e.minorValue < e.minorValue
  {
    var fit := remaining / e.minorValue;
    var n := Min(fit, Count(pool, e));
    FitBounds(remaining, e.minorValue, n);
    n
  }

  /**
   * Taking at most `remaining / v` pieces of value `v` never overpays, and
   * taking exactly that many leaves less than `v` owed.
   */
  lemma FitBounds(remaining: nat, v: nat, m: nat)
    requires v > 0 && m <= remaining / v
    ensures 0 <= m * v <= remaining
    ensures m == remaining / v ==> remaining - m * v < v
  {
    var q := remaining / v;
    assert q * v + remaining % v == remaining;
    assert q * v - m * v == (q - m) * v;
  }

  /**
   * The rest of the greedy pass, from the state (`remaining`, `result`) over the
   * elements still to visit; it ends early once nothing is owed. It yields the
   * change collected and what is still owed at the end.
   */
  ghost function Pass(remaining: nat, pool: Change, elements: seq<MonetaryElement>, result: Change): (r: (Change, nat))
    requires Positive(elements)
    decreases |elements|
  {
    if elements == [] then (result, remaining)
    else
      var e := elements[0];
      var n := Take(remaining, pool, e);
      var result' := if n > 0 then Add(result, e, n) else result;
      var remaining' := remaining - n * e.minorValue;
      if remaining' == 0 then (result', 0)
      else Pass(remaining', pool, elements[1..], result')
  }

  /** `calculateChange` as a function: the pass from nothing collected, failing when something is still owed. */
  ghost function GreedyChange(amountDue: nat, pool: Change, elements: seq<MonetaryElement>): (r: Outcome)
    requires Positive(elements)
    ensures r.Failure? ==> r.error == NotEnoughChange
  {
    var (result, remaining) := Pass(amountDue, pool, elements, map[]);
    if remaining > 0 then Failure(NotEnoughChange) else Success(result)
  }

  /** A valid catalog has only positive values, and so does every suffix of it. */
  lemma CatalogPositive(elements: seq<MonetaryElement>, i: nat)
    requires ValidCatalog(elements) && i <= |elements|
    ensures Positive(elements[i..])
  {
  }

  /** The pass keeps the value of the collected change plus what is owed. */
  lemma {:induction false} PassConserves(remaining: nat, pool: Change, elements: seq<MonetaryElement>, result: Change)
    requires Positive(elements)
    ensures Total(Pass(remaining, pool, elements, result).0) + Pass(remaining, pool, elements, result).1
            == Total(result) + remaining
    decreases |elements|
  {
    if elements != [] {
      var e := elements[0];
      var n := Take(remaining, pool, e);
      var result' := if n > 0 then Add(result, e, n) else result;
      var remaining' := remaining - n * e.minorValue;
      TotalAdd(result, e, n);
      assert Total(result') + remaining' == Total(result) + remaining;
      if remaining' != 0 {
        PassConserves(remaining', pool, elements[1..], result');
      }
    }
  }

  /**
   * What is owed never grows, and the pass leaves the counts of every
   * denomination it does not visit as they were.
   */
  lemma {:induction false} PassFrame(remaining: nat, pool: Change, elements: seq<MonetaryElement>, result: Change)
    requires Positive(elements)
    ensures Pass(remaining, pool, elements, result).1 <= remaining
    ensures forall x :: x !in elements ==> Count(Pass(remaining, pool, elements, result).0, x) == Count(result, x)
    ensures forall x :: x in Pass(remaining, pool, elements, result).0 ==> x in result || x in elements
    decreases |elements|
  {
    if elements != [] {
      var e := elements[0];
      var n := Take(remaining, pool, e);
      var result' := if n > 0 then Add(result, e, n) else result;
      var remaining' := remaining - n * e.minorValue;
      if remaining' != 0 {
        PassFrame(remaining', pool, elements[1..], result');
        assert forall x :: x in elements[1..] ==> x in elements;
      }
    }
  }

  /** Denominations still to be visited do not occur in the collected change yet. */
  ghost predicate Fresh(result: Change, elements: seq<MonetaryElement>)
  {
    forall i :: 0 <= i < |elements| ==> elements[i] !in result
  }

  /**
   * Drawing on a pool with a catalog of distinct denominations, the pass never
   * takes more pieces of a denomination than the pool holds.
   */
  lemma {:induction false} PassCovers(remaining: nat, pool: Change, elements: seq<MonetaryElement>, result: Change)
    requires ValidCatalog(elements)
    requires Covers(pool, result) && Fresh(result, elements)
    ensures Covers(pool, Pass(remaining, pool, elements, result).0)
    decreases |elements|
  {
    if elements != [] {
      var e := elements[0];
      var n := Take(remaining, pool, e);
      var result' := if n > 0 then Add(result, e, n) else result;
      var remaining' := remaining - n * e.minorValue;
      if remaining' != 0 {
        assert Fresh(result', elements[1..]) by {
          forall i | 0 <= i < |elements[1..]|
            ensures elements[1..][i] !in result'
          {
            assert elements[1..][i] == elements[i + 1];
            assert elements[0].minorValue > elements[i + 1].minorValue;
          }
        }
        PassCovers(remaining', pool, elements[1..], result');
      }
    }
  }

  /**
   * When the pass ends with something still owed, no denomination can
   * reduce it any further: each one was either taken in full from the pool or
   * is worth more than what is still owed.
   */
  lemma {:induction false} PassStuck(remaining: nat, pool: Change, elements: seq<MonetaryElement>, result: Change)
    requires ValidCatalog(elements) && Fresh(result, elements)
    ensures var (out, left) := Pass(remaining, pool, elements, result);
            left > 0 ==>
              forall e :: e in elements ==> Count(out, e) == Count(pool, e) || left < e.minorValue
    decreases |elements|
  {
    if elements != [] {
      var e := elements[0];
      var n := Take(remaining, pool, e);
      var result' := if n > 0 then Add(result, e, n) else result;
      var remaining' := remaining - n * e.minorValue;
      if remaining' != 0 {
        var rest := elements[1..];
        assert Fresh(result', rest) by {
          forall i | 0 <= i < |rest|
            ensures rest[i] !in result'
          {
            assert rest[i] == elements[i + 1];
            assert elements[0].minorValue > elements[i + 1].minorValue;
          }
        }
        assert e !in rest by {
          forall i | 0 <= i < |rest| ensures rest[i] != e {
            assert elements[0].minorValue > elements[i + 1].minorValue;
          }
        }
        PassStuck(remaining', pool, rest, result');
        PassFrame(remaining', pool, rest, result');
        assert Count(result', e) == n;
      }
    }
  }

  /** On success, the change is worth exactly the amount due. */
  lemma GreedyConserves(amountDue: nat, pool: Change, elements: seq<MonetaryElement>)
    requires Positive(elements)
    ensures GreedyChange(amountDue, pool, elements).Success? ==>
              Total(GreedyChange(amountDue, pool, elements).change) == amountDue
  {
    PassConserves(amountDue, pool, elements, map[]);
  }

  /**
   * On success, every piece of change is available in the pool and is a
   * denomination of the catalog.
   */
  lemma GreedyCovers(amountDue: nat, pool: Change, elements: seq<MonetaryElement>)
    requires ValidCatalog(elements)
    ensures GreedyChange(amountDue, pool, elements).Success? ==>
              && Covers(pool, GreedyChange(amountDue, pool, elements).change)
              && Within(GreedyChange(amountDue, pool, elements).change, elements)
  {
    PassCovers(amountDue, pool, elements, map[]);
    PassFrame(amountDue, pool, elements, map[]);
  }

  /**
   * The only failure is `NotEnoughChange`, and it happens exactly when the
   * pass ends owing something no denomination of the catalog can pay off.
   */
  lemma GreedyFailure(amountDue: nat, pool: Change, elements: seq<MonetaryElement>)
    requires ValidCatalog(elements)
    ensures var (out, left) := Pass(amountDue, pool, elements, map[]);
            && (GreedyChange(amountDue, pool, elements).Failure? <==> left > 0)
            && (GreedyChange(amountDue, pool, elements).Failure? ==>
                  && GreedyChange(amountDue, pool, elements).error == NotEnoughChange
                  && forall e :: e in elements ==> Count(out, e) == Count(pool, e) || left < e.minorValue)
  {
    PassStuck(amountDue, pool, elements, map[]);
  }

  /**
   * One step of the pass at position `i`: it never overpays, it keeps the
   * value of the change plus what is owed, and it either ends the pass, when
   * it pays off what is owed, or leaves the rest of the pass to do.
   */
  lemma PassStep(remaining: nat, pool: Change, elements: seq<MonetaryElement>, i: nat, result: Change)
    requires Positive(elements) && i < |elements|
    ensures var e := elements[i];
            var n := Take(remaining, pool, e);
            var result' := if n > 0 then Add(result, e, n) else result;
            var remaining' := remaining - e.minorValue * n;
            && 0 <= e.minorValue * n <= remaining
            && Total(result') + remaining' == Total(result) + remaining
            && Pass(remaining, pool, elements[i..], result)
            == if remaining' == 0 then (result', 0) else Pass(remaining', pool, elements[i + 1..], result')
  {
    var e := elements[i];
    var n := Take(remaining, pool, e);
    TotalAdd(result, e, n);
    assert e.minorValue * n == n * e.minorValue;
    assert elements[i..][1..] == elements[i + 1..];
  }

  /**
   * `calculateChange(amountDue, availableChange)`: walks the catalog in
   * descending order, takes as many pieces of each denomination as fit and
   * are available, stops as soon as nothing is owed, and fails with
   * `NotEnoughChange` if something is still owed at the end.
   */
  method CalculateChange(amountDue: nat, availableChange: Change, elements: seq<MonetaryElement>) returns (r: Outcome)
    requires ValidCatalog(elements)
    ensures r == GreedyChange(amountDue, availableChange, elements)
    ensures r.Success? ==> Total(r.change) == amountDue && Covers(availableChange, r.change)
    ensures r.Failure? ==> r.error == NotEnoughChange
  {
    var remaining: nat := amountDue;
    var result: Change := map[];
    var i := 0;
    while i < |elements|
      invariant 0 <= i <= |elements|
      invariant Pass(remaining, availableChange, elements[i..], result)
                == Pass(amountDue, availableChange, elements, map[])
      invariant Total(result) + remaining == amountDue
    {
      var element := elements[i];
      CatalogPositive(elements, i);
      var available := Count(availableChange, element);
      var needed := Min(remaining / element.minorValue, available);
      assert needed == Take(remaining, availableChange, element);
      PassStep(remaining, availableChange, elements, i, result);
      if needed > 0 {
        result := Add(result, element, needed);
        remaining := remaining - element.minorValue * needed;
      }
      if remaining == 0 {
        break;
      }
      i := i + 1;
    }
    if remaining > 0 {
      return Failure(NotEnoughChange);
    }
    GreedyCovers(amountDue, availableChange, elements);
    return Success(result);
  }
}
