/**
 * The transactions of the repository's test suite, on an example catalog of
 * the euro denominations those tests use, with values in cents.
 */
module Scenarios {
  import opened Money
  import opened TransactionOutcome
  import opened Greedy
  import opened Transactions

  const FiveHundredEuro := Bill(50000)
  const TwentyEuro := Bill(2000)
  const TenEuro := Bill(1000)
  const FiveEuro := Bill(500)
  const TwoEuro := Coin(200)
  const OneEuro := Coin(100)
  const FiftyCent := Coin(50)
  const TwentyCent := Coin(20)
  const TenCent := Coin(10)

  /** The example catalog, in descending order of value. */
  const Euro: seq<MonetaryElement> :=
    [FiveHundredEuro, TwentyEuro, TenEuro, FiveEuro, TwoEuro, OneEuro, FiftyCent, TwentyCent, TenCent]

  lemma EuroIsValid()
    ensures ValidCatalog(Euro)
  {
  }

  /** The total of an inventory holding a single denomination. */
  lemma TotalSingle(e: MonetaryElement, n: nat)
    ensures Total(map[e := n]) == n * e.minorValue
  {
    TotalSplit(map[e := n], e);
    assert map[e := n] - {e} == map[];
  }

  /** At the `k`-th euro denomination the pass takes nothing and goes on, since something is owed. */
  lemma Skip(remaining: nat, pool: Change, k: nat, result: Change)
    requires k < |Euro| && remaining > 0
    requires Take(remaining, pool, Euro[k]) == 0
    ensures Pass(remaining, pool, Euro[k..], result) == Pass(remaining, pool, Euro[k + 1..], result)
  {
    assert Euro[k..][1..] == Euro[k + 1..];
  }

  /** At the `k`-th euro denomination the pass takes `n` pieces and goes on with what is still owed. */
  lemma TakeSome(remaining: nat, pool: Change, k: nat, result: Change, n: nat)
    requires k < |Euro|
    requires n == Take(remaining, pool, Euro[k]) && n > 0
    requires remaining - n * Euro[k].minorValue > 0
    ensures Pass(remaining, pool, Euro[k..], result)
            == Pass(remaining - n * Euro[k].minorValue, pool, Euro[k + 1..], Add(result, Euro[k], n))
  {
    assert Euro[k..][1..] == Euro[k + 1..];
  }

  /** At the `k`-th euro denomination the pass takes `n` pieces, which pays off everything owed. */
  lemma TakeLast(remaining: nat, pool: Change, k: nat, result: Change, n: nat)
    requires k < |Euro|
    requires n == Take(remaining, pool, Euro[k]) && n > 0
    requires remaining == n * Euro[k].minorValue
    ensures Pass(remaining, pool, Euro[k..], result) == (Add(result, Euro[k], n), 0)
  {
  }

  // Test: paying 10.00 with a 10-euro note.

  /** An exact payment returns no change and the note goes into the till. */
  lemma ExactPaymentScenario()
    ensures Transaction(map[TenEuro := 1, OneEuro := 1], 1000, map[TenEuro := 1], Euro)
            == (Success(map[]), map[TenEuro := 2, OneEuro := 1])
  {
    TotalSingle(TenEuro, 1);
    assert Merge(map[TenEuro := 1, OneEuro := 1], map[TenEuro := 1]) == map[TenEuro := 2, OneEuro := 1];
  }

  // Tests: a 20-euro note for 17.60 and for 11.60 on a well-stocked till.

  /** The till of the change tests, with the twenty- and ten-cent coins added twice over. */
  const Stocked: Change :=
    map[TenEuro := 1, FiveEuro := 1, TwoEuro := 2, OneEuro := 2, FiftyCent := 3, TwentyCent := 10, TenCent := 20]

  /** The stocked till plus the 20-euro note. */
  const StockedPool: Change :=
    map[TwentyEuro := 1, TenEuro := 1, FiveEuro := 1, TwoEuro := 2, OneEuro := 2, FiftyCent := 3,
        TwentyCent := 10, TenCent := 20]

  lemma StockedPoolIsMerge()
    ensures Merge(Stocked, map[TwentyEuro := 1]) == StockedPool
  {
  }

  /** For 2.40, no bill fits. */
  lemma Change240Bills()
    ensures Pass(240, StockedPool, Euro, map[]) == Pass(240, StockedPool, Euro[4..], map[])
  {
    Skip(240, StockedPool, 0, map[]);
    Skip(240, StockedPool, 1, map[]);
    Skip(240, StockedPool, 2, map[]);
    Skip(240, StockedPool, 3, map[]);
  }

  /** For 2.40: one 2-euro coin, then two 20-cent coins. */
  lemma Change240Coins()
    ensures Pass(240, StockedPool, Euro[4..], map[]) == (map[TwoEuro := 1, TwentyCent := 2], 0)
  {
    TakeSome(240, StockedPool, 4, map[], 1);
    Skip(40, StockedPool, 5, map[TwoEuro := 1]);
    Skip(40, StockedPool, 6, map[TwoEuro := 1]);
    TakeLast(40, StockedPool, 7, map[TwoEuro := 1], 2);
  }

  /** For 2.40 the pass succeeds with a 2-euro coin and two 20-cent coins, worth 2.40. */
  lemma Change240Greedy()
    ensures GreedyChange(240, StockedPool, Euro) == Success(map[TwoEuro := 1, TwentyCent := 2])
    ensures Total(map[TwoEuro := 1, TwentyCent := 2]) == 240
  {
    Change240Bills();
    Change240Coins();
    GreedyConserves(240, StockedPool, Euro);
  }

  /** A price of 17.60 paid with a 20-euro note gives back 2.40: a 2-euro coin and two 20-cent coins. */
  lemma Change240Scenario()
    ensures var (outcome, after) := Transaction(Stocked, 1760, map[TwentyEuro := 1], Euro);
            && outcome == Success(map[TwoEuro := 1, TwentyCent := 2])
            && Total(outcome.change) == 240
            && after == map[TwentyEuro := 1, TenEuro := 1, FiveEuro := 1, TwoEuro := 1, OneEuro := 2,
                             FiftyCent := 3, TwentyCent := 8, TenCent := 20]
  {
    EuroIsValid();
    TotalSingle(TwentyEuro, 1);
    StockedPoolIsMerge();
    Change240Greedy();
    Change240Till();
  }

  /** The till after the change of 2.40 is handed out. */
  lemma Change240Till()
    ensures Covers(StockedPool, map[TwoEuro := 1, TwentyCent := 2])
    ensures Subtract(StockedPool, map[TwoEuro := 1, TwentyCent := 2])
            == map[TwentyEuro := 1, TenEuro := 1, FiveEuro := 1, TwoEuro := 1, OneEuro := 2,
                   FiftyCent := 3, TwentyCent := 8, TenCent := 20]
  {
  }

  /** For 8.40: no large bill fits, the 5-euro note does. */
  lemma Change840Bills()
    ensures Pass(840, StockedPool, Euro, map[]) == Pass(340, StockedPool, Euro[4..], map[FiveEuro := 1])
  {
    Skip(840, StockedPool, 0, map[]);
    Skip(840, StockedPool, 1, map[]);
    Skip(840, StockedPool, 2, map[]);
    TakeSome(840, StockedPool, 3, map[], 1);
  }

  /** For the remaining 3.40: one 2-euro coin, one 1-euro coin, no 50-cent coin, two 20-cent coins. */
  lemma Change840Coins()
    ensures Pass(340, StockedPool, Euro[4..], map[FiveEuro := 1])
            == (map[FiveEuro := 1, TwoEuro := 1, OneEuro := 1, TwentyCent := 2], 0)
  {
    TakeSome(340, StockedPool, 4, map[FiveEuro := 1], 1);
    TakeSome(140, StockedPool, 5, map[FiveEuro := 1, TwoEuro := 1], 1);
    Skip(40, StockedPool, 6, map[FiveEuro := 1, TwoEuro := 1, OneEuro := 1]);
    TakeLast(40, StockedPool, 7, map[FiveEuro := 1, TwoEuro := 1, OneEuro := 1], 2);
  }

  /** A price of 11.60 paid with a 20-euro note gives back 8.40. */
  lemma Change840Scenario()
    ensures var (outcome, after) := Transaction(Stocked, 1160, map[TwentyEuro := 1], Euro);
            && outcome == Success(map[FiveEuro := 1, TwoEuro := 1, OneEuro := 1, TwentyCent := 2])
            && Total(outcome.change) == 840
  {
    EuroIsValid();
    TotalSingle(TwentyEuro, 1);
    StockedPoolIsMerge();
    Change840Bills();
    Change840Coins();
    GreedyConserves(840, StockedPool, Euro);
  }

  // Test: a 10-euro note for 11.60 on the stocked till.

  /** The payment falls short of the price: `InsufficientPayment`, and the till is untouched. */
  lemma InsufficientPaymentScenario()
    ensures Transaction(Stocked, 1160, map[TenEuro := 1], Euro) == (Failure(InsufficientPayment), Stocked)
  {
    EuroIsValid();
    TotalSingle(TenEuro, 1);
  }

  // Test: a 20-euro note for 17.60 on a till holding {10 euro, 50 cent, 10 cent}.

  /** The till of the failing test plus the 20-euro note. */
  const ShortPool: Change := map[TwentyEuro := 1, TenEuro := 1, FiftyCent := 1, TenCent := 1]

  /** For 2.40, none of the notes is usable: each is worth more than is owed. */
  lemma ShortPassBills()
    ensures Pass(240, ShortPool, Euro, map[]) == Pass(240, ShortPool, Euro[4..], map[])
  {
    Skip(240, ShortPool, 0, map[]);
    Skip(240, ShortPool, 1, map[]);
    Skip(240, ShortPool, 2, map[]);
    Skip(240, ShortPool, 3, map[]);
  }

  /** Nor are the 2-euro and 1-euro coins, of which the till holds none. */
  lemma ShortPassEuroCoins()
    ensures Pass(240, ShortPool, Euro[4..], map[]) == Pass(240, ShortPool, Euro[6..], map[])
  {
    Skip(240, ShortPool, 4, map[]);
    Skip(240, ShortPool, 5, map[]);
  }

  /** The one 50-cent and the one 10-cent coin are taken, and 1.80 is still owed. */
  lemma ShortPassCents()
    ensures Pass(240, ShortPool, Euro[6..], map[]) == (map[FiftyCent := 1, TenCent := 1], 180)
  {
    TakeSome(240, ShortPool, 6, map[], 1);
    Skip(190, ShortPool, 7, map[FiftyCent := 1]);
    TakeSome(190, ShortPool, 8, map[FiftyCent := 1], 1);
    assert Euro[9..] == [];
  }

  /** The transaction fails with `NotEnoughChange` and the till is left as it was. */
  lemma NotEnoughChangeScenario()
    ensures var register := map[TenEuro := 1, FiftyCent := 1, TenCent := 1];
            Transaction(register, 1760, map[TwentyEuro := 1], Euro) == (Failure(NotEnoughChange), register)
  {
    TotalSingle(TwentyEuro, 1);
    assert Merge(map[TenEuro := 1, FiftyCent := 1, TenCent := 1], map[TwentyEuro := 1]) == ShortPool;
    ShortPassBills();
    ShortPassEuroCoins();
    ShortPassCents();
  }

  // Tests: a price of 0, and an empty payment for 10.00.

  /** A price of 0 is rejected with `InvalidPrice` before the payment is looked at. */
  lemma InvalidPriceScenario()
    ensures var register := map[TenEuro := 1, FiftyCent := 1, TenCent := 1];
            Transaction(register, 0, map[TwentyEuro := 1], Euro) == (Failure(InvalidPrice), register)
  {
    EuroIsValid();
  }

  /** Paying nothing for 10.00 is rejected with `InsufficientPayment`. */
  lemma ZeroPaymentScenario()
    ensures Transaction(map[TenEuro := 1], 1000, map[], Euro) == (Failure(InsufficientPayment), map[TenEuro := 1])
  {
    EuroIsValid();
    MergeEmpty(map[]);
  }

  // Test: large amounts, a price of 40,000,000,000 cents paid with two million 500-euro notes.

  /** The change of 60,000,000,000 cents is paid in 1,200,000 of the 500-euro notes. */
  lemma LargeValuesScenario()
    ensures var (outcome, after) :=
              Transaction(map[FiveHundredEuro := 1000000], 400000000 * 100, map[FiveHundredEuro := 2000000], Euro);
            && outcome == Success(map[FiveHundredEuro := 1200000])
            && Total(outcome.change) > 0
            && after == map[FiveHundredEuro := 1800000]
  {
    EuroIsValid();
    TotalSingle(FiveHundredEuro, 2000000);
    TotalSingle(FiveHundredEuro, 1200000);
    assert Merge(map[FiveHundredEuro := 1000000], map[FiveHundredEuro := 2000000]) == map[FiveHundredEuro := 3000000];
    TakeLast(60000000000, map[FiveHundredEuro := 3000000], 0, map[], 1200000);
  }

  // A negative price, which only the zero check stands in the way of.

  /** For 1.00, nothing down to the 2-euro coin is on hand; the 1-euro coin pays it off. */
  lemma NegativePricePass()
    ensures Pass(100, map[OneEuro := 1], Euro, map[]) == (map[OneEuro := 1], 0)
  {
    Skip(100, map[OneEuro := 1], 0, map[]);
    Skip(100, map[OneEuro := 1], 1, map[]);
    Skip(100, map[OneEuro := 1], 2, map[]);
    Skip(100, map[OneEuro := 1], 3, map[]);
    Skip(100, map[OneEuro := 1], 4, map[]);
    TakeLast(100, map[OneEuro := 1], 5, map[], 1);
    assert Add(map[], OneEuro, 1) == map[OneEuro := 1];
  }

  /** A price of -1.00 with nothing paid succeeds: the till hands out its 1-euro coin. */
  lemma NegativePriceScenario()
    ensures Transaction(map[OneEuro := 1], -100, map[], Euro) == (Success(map[OneEuro := 1]), map[OneEuro := 0])
  {
    MergeEmpty(map[OneEuro := 1]);
    NegativePricePass();
    assert Subtract(map[OneEuro := 1], map[OneEuro := 1]) == map[OneEuro := 0];
  }

  // The pass is a feasibility search in one direction, not an exhaustive one.

  /** A till holding one 50-cent coin and three 20-cent coins. */
  const Uneven: Change := map[FiftyCent := 1, TwentyCent := 3]

  /** For 0.60, none of the notes is usable. */
  lemma UnevenPassBills()
    ensures Pass(60, Uneven, Euro, map[]) == Pass(60, Uneven, Euro[4..], map[])
  {
    Skip(60, Uneven, 0, map[]);
    Skip(60, Uneven, 1, map[]);
    Skip(60, Uneven, 2, map[]);
    Skip(60, Uneven, 3, map[]);
  }

  /** The 50-cent coin is taken first, after which 0.10 is owed and nothing pays it. */
  lemma UnevenPassCoins()
    ensures Pass(60, Uneven, Euro[4..], map[]) == (map[FiftyCent := 1], 10)
  {
    Skip(60, Uneven, 4, map[]);
    Skip(60, Uneven, 5, map[]);
    TakeSome(60, Uneven, 6, map[], 1);
    assert Add(map[], FiftyCent, 1) == map[FiftyCent := 1];
    Skip(10, Uneven, 7, map[FiftyCent := 1]);
    Skip(10, Uneven, 8, map[FiftyCent := 1]);
    assert Euro[9..] == [];
  }

  /**
   * Owing 0.60, the pass fails with `NotEnoughChange` although the three
   * 20-cent coins in the pool are worth exactly 0.60.
   */
  lemma GreedyNotExhaustive()
    ensures GreedyChange(60, Uneven, Euro) == Failure(NotEnoughChange)
    ensures Covers(Uneven, map[TwentyCent := 3]) && Total(map[TwentyCent := 3]) == 60
  {
    UnevenPassBills();
    UnevenPassCoins();
    TotalSingle(TwentyCent, 3);
  }
}
