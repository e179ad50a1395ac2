/**
 * Denominations and the inventory of a cash register.
 *
 * A `Change` value maps each monetary element (a bill or a coin) to the number
 * of pieces held. Its total is the sum of count times minor-unit value over all
 * entries. Counts are natural numbers, so no entry is ever negative. An entry
 * whose count is zero adds nothing to the total.
 */
module Money {

  /** A bill or a coin, carrying its value in minor units (cents). */
  datatype MonetaryElement = Bill(minorValue: nat) | Coin(minorValue: nat)

  /** Every value in the sequence is positive, so the greedy step may divide by it. */
  predicate Positive(elements: seq<MonetaryElement>)
  {
    forall i :: 0 <= i < |elements| ==> elements[i].minorValue > 0
  }

  /**
   * The denomination catalog, listed in the order the greedy pass visits it:
   * every value is positive, and the values strictly decrease.
   * Strictly decreasing values also make the elements pairwise distinct.
   */
  predicate ValidCatalog(elements: seq<MonetaryElement>)
  {
    && Positive(elements)
    && (forall i, j :: 0 <= i < j < |elements| ==> elements[i].minorValue > elements[j].minorValue)
  }

  /** An inventory: denomination to number of pieces. */
  type Change = map<MonetaryElement, nat>

  /** Every stored denomination belongs to the catalog. */
  predicate Within(c: Change, elements: seq<MonetaryElement>)
  {
    forall e :: e in c ==> e in elements
  }

  /** `getCount`: the stored count, 0 when the element is absent. */
  function Count(c: Change, e: MonetaryElement): (n: nat)
  {
    if e in c then c[e] else 0
  }

  /** `add(element, count)`: the count of `e` grows by `n`, nothing else changes. */
  function Add(c: Change, e: MonetaryElement, n: nat): (r: Change)
    ensures Count(r, e) == Count(c, e) + n
    ensures forall x :: x != e ==> Count(r, x) == Count(c, x)
    ensures r.Keys == c.Keys + {e}
  {
    c[e := Count(c, e) + n]
  }

  /**
   * `remove(element, count)`: only defined when at least `n` pieces of `e` are
   * stored; the count of `e` shrinks by `n`, nothing else changes.
   */
  function Remove(c: Change, e: MonetaryElement, n: nat): (r: Change)
    requires n <= Count(c, e)
    ensures Count(r, e) + n == Count(c, e)
    ensures forall x :: x != e ==> Count(r, x) == Count(c, x)
    ensures r.Keys == c.Keys + {e}
  {
    c[e := Count(c, e) - n]
  }

  /** The denomination-wise sum of two inventories. */
  function Merge(a: Change, b: Change): (r: Change)
    ensures forall e :: Count(r, e) == Count(a, e) + Count(b, e)
    ensures r.Keys == a.Keys + b.Keys
  {
    map e | e in a.Keys + b.Keys :: Count(a, e) + Count(b, e)
  }

  /** `a` holds every piece of `b`: each entry of `b` is stored in `a` with at least that count. */
  predicate Covers(a: Change, b: Change)
  {
    forall e :: e in b ==> e in a && b[e] <= a[e]
  }

  /** Take the pieces of `b` out of `a`; only defined when `a` covers `b`. */
  function Subtract(a: Change, b: Change): (r: Change)
    requires Covers(a, b)
    ensures forall e :: Count(r, e) + Count(b, e) == Count(a, e)
    ensures r.Keys == a.Keys
  {
    map e | e in a :: a[e] - Count(b, e)
  }

  /** The entries of `c` whose denomination is in `s`. */
  function Restrict(c: Change, s: set<MonetaryElement>): (r: Change)
    ensures r.Keys == c.Keys * s
    ensures forall e :: e in r ==> r[e] == c[e]
  {
    map e | e in c && e in s :: c[e]
  }

  /** `total`: the sum of count times minor value over all entries. */
  ghost function Total(c: Change): (t: nat)
    decreases c.Keys
  {
    if c == map[] then 0
    else
      var e :| e in c;
      c[e] * e.minorValue + Total(c - {e})
  }

  /** The total does not depend on which entry is taken out first. */
  lemma {:induction false} TotalSplit(c: Change, e: MonetaryElement)
    requires e in c
    ensures Total(c) == c[e] * e.minorValue + Total(c - {e})
    decreases c.Keys
  {
    var x :| x in c && Total(c) == c[x] * x.minorValue + Total(c - {x});
    if x != e {
      TotalSplit(c - {x}, e);
      TotalSplit(c - {e}, x);
      assert c - {x} - {e} == c - {e} - {x};
    }
  }

  /** Setting the count of `e` to `k` moves the total by the difference in that entry's value. */
  lemma TotalUpdate(c: Change, e: MonetaryElement, k: nat)
    ensures Total(c[e := k]) + Count(c, e) * e.minorValue == Total(c) + k * e.minorValue
  {
    var r := c[e := k];
    TotalSplit(r, e);
    assert r - {e} == c - {e};
    if e in c {
      TotalSplit(c, e);
    } else {
      assert c - {e} == c;
    }
  }

  /** Multiplication distributes over addition. */
  lemma Distribute(a: nat, b: nat, v: nat)
    ensures (a + b) * v == a * v + b * v
  {
  }

  /** Adding `n` pieces of `e` raises the total by `n` times the value of `e`. */
  lemma TotalAdd(c: Change, e: MonetaryElement, n: nat)
    ensures Total(Add(c, e, n)) == Total(c) + n * e.minorValue
  {
    TotalUpdate(c, e, Count(c, e) + n);
    Distribute(Count(c, e), n, e.minorValue);
  }

  /** Removing `n` pieces of `e` lowers the total by `n` times the value of `e`. */
  lemma TotalRemove(c: Change, e: MonetaryElement, n: nat)
    requires n <= Count(c, e)
    ensures Total(Remove(c, e, n)) + n * e.minorValue == Total(c)
  {
    TotalUpdate(c, e, Count(c, e) - n);
    Distribute(Count(c, e) - n, n, e.minorValue);
  }

  /** The empty inventory has total 0, and merging with it changes nothing. */
  lemma MergeEmpty(c: Change)
    ensures Total(map[]) == 0
    ensures Merge(map[], c) == c && Merge(c, map[]) == c
  {
  }

  /** The total of a merge is the sum of the totals. */
  lemma {:induction false} TotalMerge(a: Change, b: Change)
    ensures Total(Merge(a, b)) == Total(a) + Total(b)
    decreases b.Keys
  {
    if b == map[] {
      assert Merge(a, b) == a;
    } else {
      var e :| e in b;
      var rest := b - {e};
      MergeOneMore(a, b, e);
      TotalMerge(a, rest);
      TotalAdd(Merge(a, rest), e, b[e]);
      TotalSplit(b, e);
    }
  }

  /** Two inventories with the same denominations and the same counts are equal. */
  lemma SameCounts(a: Change, b: Change)
    requires a.Keys == b.Keys
    requires forall x :: Count(a, x) == Count(b, x)
    ensures a == b
  {
    forall x | x in a
      ensures a[x] == b[x]
    {
      assert Count(a, x) == Count(b, x);
    }
  }

  /** Merging in one more entry of `b` is adding its pieces. */
  lemma MergeOneMore(a: Change, b: Change, e: MonetaryElement)
    requires e in b
    ensures Merge(a, b) == Add(Merge(a, b - {e}), e, b[e])
  {
    SameCounts(Merge(a, b), Add(Merge(a, b - {e}), e, b[e]));
  }

  /** Subtracting one more entry of `b` is removing its pieces. */
  lemma SubtractOneMore(a: Change, b: Change, e: MonetaryElement)
    requires Covers(a, b) && e in b
    ensures Covers(a, b - {e})
    ensures b[e] <= Count(Subtract(a, b - {e}), e)
    ensures Subtract(a, b) == Remove(Subtract(a, b - {e}), e, b[e])
  {
    SameCounts(Subtract(a, b), Remove(Subtract(a, b - {e}), e, b[e]));
  }

  /**
   * One step of merging `b` in entry by entry: with the entries outside `todo`
   * merged so far, merging one more entry `e` of `todo` is adding its pieces.
   */
  lemma MergeStep(a: Change, b: Change, todo: set<MonetaryElement>, e: MonetaryElement)
    requires todo <= b.Keys && e in todo
    ensures Merge(a, b - (todo - {e})) == Add(Merge(a, b - todo), e, b[e])
  {
    MergeOneMore(a, b - (todo - {e}), e);
    assert b - (todo - {e}) - {e} == b - todo;
  }

  /** A map covers every part of a map it covers. */
  lemma CoversPart(a: Change, b: Change, s: set<MonetaryElement>)
    requires Covers(a, b)
    ensures Covers(a, b - s)
  {
  }

  /**
   * One step of taking `b` out entry by entry: with the entries outside `todo`
   * taken out so far, taking out one more entry `e` of `todo` is removing its pieces.
   */
  lemma SubtractStep(a: Change, b: Change, todo: set<MonetaryElement>, e: MonetaryElement)
    requires Covers(a, b) && todo <= b.Keys && e in todo
    ensures Covers(a, b - todo)
    ensures b[e] <= Count(Subtract(a, b - todo), e)
    ensures Subtract(a, b - (todo - {e})) == Remove(Subtract(a, b - todo), e, b[e])
  {
    CoversPart(a, b, todo - {e});
    SubtractOneMore(a, b - (todo - {e}), e);
    assert b - (todo - {e}) - {e} == b - todo;
  }

  /** Taking the pieces of `b` back out of `a` undoes merging them in. */
  lemma SubtractMerge(a: Change, b: Change)
    requires Covers(a, b)
    ensures Merge(Subtract(a, b), b) == a
  {
  }

  /** The total of what remains after a subtraction. */
  lemma TotalSubtract(a: Change, b: Change)
    requires Covers(a, b)
    ensures Total(Subtract(a, b)) + Total(b) == Total(a)
  {
    SubtractMerge(a, b);
    TotalMerge(Subtract(a, b), b);
  }

  /** `a.total`, computed by a pass over the stored entries. */
  method TotalOf(c: Change) returns (t: nat)
    ensures t == Total(c)
  {
    t := 0;
    var todo := c.Keys;
    assert Restrict(c, todo) == c;
    while todo != {}
      invariant todo <= c.Keys
      invariant t + Total(Restrict(c, todo)) == Total(c)
      decreases todo
    {
      var e :| e in todo;
      var rest := Restrict(c, todo);
      TotalSplit(rest, e);
      assert rest - {e} == Restrict(c, todo - {e});
      t := t + c[e] * e.minorValue;
      todo := todo - {e};
    }
    assert Restrict(c, todo) == map[];
  }
}
