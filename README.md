# Cash register transaction engine

A model of the transaction engine of a cash register
(`src/main/kotlin/CashRegister.kt`). The register owns an inventory of bills
and coins. `performTransaction(price, amountPaid)` does five things in order:

1. It rejects a zero price.
2. It rejects a payment worth less than the price.
3. It keeps an exact payment and returns no change.
4. Otherwise it runs one greedy pass over the denominations, from the highest
   value down. The pass draws on a temporary pool: the register's holdings
   plus the payment.
5. Only if that pass succeeds does it add the payment to the holdings and take
   the change out of them.

The model has six modules:

- `Money` (`money.dfy`): a denomination (`Bill`/`Coin` with a value in minor
  units), the inventory `Change` as a map from denomination to count, and the
  operations add, remove, merge and subtract. It also has the total value
  `Total`, with lemmas on how each operation moves it, and `TotalOf`, a loop
  that computes it.
- `TransactionOutcome` (`outcome.dfy`): the result of a transaction. It is
  change, or one of the three failures `InvalidPrice`, `InsufficientPayment`
  and `NotEnoughChange`.
- `Greedy` (`greedy.dfy`): `calculateChange`. The method `CalculateChange`
  keeps the source's loop, early `break` and final check. It is proved
  against the specification function `Pass`/`GreedyChange`, and the lemmas
  state the properties of that function: value is conserved, the pool is
  never overdrawn, and a failure is stuck.
- `Transactions` (`transaction.dfy`): `Transaction`, a function of the holdings
  before the call that gives the outcome and the holdings after it. Its lemmas
  cover each rejection rule, exact payment, atomicity, conservation of value
  and the safety of the removals.
- `Register` (`register.dfy`): the class `CashRegister`. Its field `change`
  is updated in place by `PerformTransaction`, `AddChange` and
  `RemoveChange`. `PerformTransaction` is proved to produce exactly the
  outcome and the new holdings that `Transaction` gives.
- `Scenarios` (`scenarios.dfy`): the transactions of
  `src/test/kotlin/CashRegisterTest.kt`, worked out on an example euro
  catalog. It also has an example where the greedy pass fails although exact
  change exists in the pool.

The catalog of denominations is a parameter of the register (`catalog`). A
valid catalog has positive, strictly decreasing values, which also makes its
elements distinct. The source of `Change`, `Bill`, `Coin` and
`MonetaryElement` is not shown. The model defines a denomination as the
datatype `MonetaryElement` (a `Bill` or a `Coin`). It defines an inventory as
the map type `Change`, with the operations `performTransaction` relies on
given by the functions of `Money`.

The source's catalog consists of every `Bill` and every `Coin` value
(`CashRegister.kt:82-83`), so every denomination the program can hold or be
paid in belongs to it. The requirements `Within(initial, catalog)` and
`Within(amountPaid, catalog)` on the constructor, `PerformTransaction` and
`AddChange` state exactly that. They hold at every call the program can make
and do not demand more of callers than the source does.

Where the code and its documentation differ, the model follows the code. The
code rejects only `price == 0` (`CashRegister.kt:18`). A negative price passes
both checks, and the change then due exceeds the payment. `NegativePriceAccepted`
and `NegativePriceScenario` state this.

## Model

| member | source | states |
|---|---|---|
| Money.Count | src/main/kotlin/CashRegister.kt:88 | `getCount` (also used at lines 37 and 40): the stored count of a denomination, 0 when it is absent |
| Money.Total | src/main/kotlin/CashRegister.kt:22-26 | `total`: the sum over all entries of count times value, a natural number (well defined by `TotalSplit`) |
| Money.Add | src/main/kotlin/CashRegister.kt:92 | adding `n` pieces raises that denomination's count by `n`, leaves every other count as it was, and the key set gains the denomination |
| Money.Remove | src/main/kotlin/CashRegister.kt:51 | removing `n` pieces when at least `n` are stored lowers that count by `n`, and no other count changes |
| Money.Merge | src/main/kotlin/CashRegister.kt:35-41 | the combined pool holds, per denomination, the sum of the two counts, over the union of both key sets |
| Money.Subtract | src/main/kotlin/CashRegister.kt:50-52 | taking covered change out leaves per denomination the stored count minus the change's count, with the same keys |
| Money.TotalSplit | src/main/kotlin/CashRegister.kt:22 | the total is the same whichever entry is summed first, so it is a well-defined sum of count times value |
| Money.TotalAdd | src/main/kotlin/CashRegister.kt:92-93 | adding `n` pieces of `e` raises the total by exactly `n` times the value of `e` |
| Money.TotalRemove | src/main/kotlin/CashRegister.kt:51 | removing `n` pieces of `e` lowers the total by exactly `n` times the value of `e` |
| Money.TotalMerge | src/main/kotlin/CashRegister.kt:35-41 | the pool is worth the register's holdings plus the payment |
| Money.TotalSubtract | src/main/kotlin/CashRegister.kt:50-52 | what remains after the change is taken out, plus the change, is worth what was there before |
| Money.TotalOf | src/main/kotlin/CashRegister.kt:22 | the loop over the entries computes exactly the total value of the payment |
| Greedy.Min | src/main/kotlin/CashRegister.kt:89 | `coerceAtMost`: the result is one of the two arguments and bounded by both |
| Greedy.FitBounds | src/main/kotlin/CashRegister.kt:89-93 | taking at most `remaining / value` pieces never overpays, and taking exactly that many leaves less than one piece's value owed |
| Greedy.Take | src/main/kotlin/CashRegister.kt:88-89 | one step takes no more than the pool holds, never more than is owed, and is maximal: either the pool runs out of this denomination or one more piece would overpay |
| Greedy.Pass | src/main/kotlin/CashRegister.kt:87-97 | the loop of `calculateChange` from a given state: it visits the denominations in order, takes `Take` pieces of each and adds them to the result when more than 0, lowers what is owed by their value, and stops once nothing is owed; it yields the change collected and what is still owed |
| Greedy.GreedyChange | src/main/kotlin/CashRegister.kt:77-104 | `calculateChange`: the pass from an empty result over the whole catalog, failing with `NotEnoughChange` (its only failure) when something is still owed, and returning the collected change otherwise |
| Greedy.PassConserves | src/main/kotlin/CashRegister.kt:87-97 | the pass keeps the value of the collected change plus what is still owed |
| Greedy.PassFrame | src/main/kotlin/CashRegister.kt:87-97 | what is owed never grows, denominations not visited keep their counts, and only visited denominations enter the result |
| Greedy.PassCovers | src/main/kotlin/CashRegister.kt:88-92 | on a catalog of distinct denominations, the change never holds more of a denomination than the pool does |
| Greedy.PassStuck | src/main/kotlin/CashRegister.kt:96-102 | if something is still owed at the end, every denomination was taken in full from the pool or is worth more than what is owed |
| Greedy.PassStep | src/main/kotlin/CashRegister.kt:88-96 | one iteration never overpays, keeps value, and either ends the pass when nothing is owed (the `break`) or leaves the rest of the pass |
| Greedy.GreedyConserves | src/main/kotlin/CashRegister.kt:77-104 | on success the change is worth exactly the amount due |
| Greedy.GreedyCovers | src/main/kotlin/CashRegister.kt:35-41 | on success every piece of change is available in the pool and belongs to the catalog |
| Greedy.GreedyFailure | src/main/kotlin/CashRegister.kt:99-102 | the only failure is `NotEnoughChange`, exactly when something is still owed, and then no denomination can reduce it |
| Greedy.CalculateChange | src/main/kotlin/CashRegister.kt:77-105 | the loop with its early `break` returns the greedy outcome; keeps `result.total + remaining == amountDue` throughout; on success the change is worth the amount due and is covered by the pool; a failure is `NotEnoughChange` |
| Transactions.Transaction | src/main/kotlin/CashRegister.kt:17-55 | `performTransaction` as a function of the holdings: `InvalidPrice` for a zero price; `InsufficientPayment` when the payment is worth less than the price; on exact payment no change and the holdings plus the payment; otherwise the greedy outcome on holdings plus payment, with the holdings plus payment minus change on success. Every failure returns the holdings unchanged |
| Transactions.ChangeDue | src/main/kotlin/CashRegister.kt:34-54 | when change is due, the outcome is the greedy pass on holdings plus payment; a failure keeps the holdings, and a success leaves the pool minus the change |
| Transactions.ZeroPriceRejected | src/main/kotlin/CashRegister.kt:18-20 | a zero price fails with `InvalidPrice` whatever is paid, and the holdings are unchanged |
| Transactions.InsufficientPaymentRejected | src/main/kotlin/CashRegister.kt:22-24 | a non-zero price above the payment's value fails with `InsufficientPayment`, holdings unchanged |
| Transactions.EmptyPaymentRejected | src/main/kotlin/CashRegister.kt:22-24 | an empty payment fails with `InsufficientPayment` for every positive price |
| Transactions.NegativePriceAccepted | src/main/kotlin/CashRegister.kt:18-26 | a negative price is neither an invalid price nor an insufficient payment, and a success hands out more than was paid |
| Transactions.ExactPayment | src/main/kotlin/CashRegister.kt:26-32 | an exact payment succeeds with change worth 0, every count of the payment is added to the holdings, and the holdings grow by the price |
| Transactions.FailureIsAtomic | src/main/kotlin/CashRegister.kt:44-51 | every failure leaves the holdings exactly as they were |
| Transactions.Conservation | src/main/kotlin/CashRegister.kt:26 | on success the change plus the price equals the payment, and the holdings grow by exactly the price |
| Transactions.RemovalsWithinPool | src/main/kotlin/CashRegister.kt:35-52 | the pool is the holdings after the payment is added, it covers the change (every removal is within the stored count), and the change uses catalog denominations only |
| Transactions.NotEnoughChangeExactly | src/main/kotlin/CashRegister.kt:96-102 | `NotEnoughChange` is reported if and only if the pass ends owing something, and then nothing can reduce it further |
| Transactions.StaysWithinCatalog | src/main/kotlin/CashRegister.kt:17-55 | holdings and payment in catalog denominations leave holdings in catalog denominations |
| Register.AddAll | src/main/kotlin/CashRegister.kt:35-41 | copying the holdings and then the payment into an empty inventory yields their merge |
| Register.CashRegister.constructor | src/main/kotlin/CashRegister.kt:6 | the register holds the given inventory over a valid catalog |
| Register.CashRegister.PerformTransaction | src/main/kotlin/CashRegister.kt:17-55 | the outcome and the new holdings are exactly those of `Transaction`; a failure leaves the holdings unchanged; a success returns change that with the price adds up to the payment, and the holdings grow by the price |
| Register.CashRegister.Settle | src/main/kotlin/CashRegister.kt:34-54 | once change is due, the pool is built, the change computed, and the holdings updated only on success, as `Transaction` gives |
| Register.CashRegister.AddChange | src/main/kotlin/CashRegister.kt:61-65 | the holdings become the holdings plus the payment, per denomination, and stay within the catalog |
| Register.CashRegister.RemoveChange | src/main/kotlin/CashRegister.kt:50-52 | each removal is within the stored count, and the holdings become the holdings minus the change |
| Scenarios.EuroIsValid | src/main/kotlin/CashRegister.kt:82-84 | the example catalog is sorted by strictly descending value, all positive |
| Scenarios.ExactPaymentScenario | src/test/kotlin/CashRegisterTest.kt:7-19 | 10.00 paid with a 10-euro note: no change, the note goes into the till |
| Scenarios.Change240Scenario | src/test/kotlin/CashRegisterTest.kt:21-38 | 17.60 paid with a 20-euro note: change of 2.40 (a 2-euro coin, two 20-cent coins) and the till afterwards |
| Scenarios.Change240Till | src/test/kotlin/CashRegisterTest.kt:21-38 | the exact till left after that change is handed out |
| Scenarios.Change840Scenario | src/test/kotlin/CashRegisterTest.kt:40-58 | 11.60 paid with a 20-euro note: change of 8.40 (5 euro, 2 euro, 1 euro, two 20-cent coins) |
| Scenarios.InsufficientPaymentScenario | src/test/kotlin/CashRegisterTest.kt:61-80 | 11.60 paid with a 10-euro note fails with `InsufficientPayment`, till unchanged |
| Scenarios.NotEnoughChangeScenario | src/test/kotlin/CashRegisterTest.kt:82-95 | 17.60 paid with a 20-euro note on a till of 10 euro, 50 cent and 10 cent fails with `NotEnoughChange`, till unchanged |
| Scenarios.InvalidPriceScenario | src/test/kotlin/CashRegisterTest.kt:98-111 | a price of 0 fails with `InvalidPrice`, till unchanged |
| Scenarios.ZeroPaymentScenario | src/test/kotlin/CashRegisterTest.kt:113-120 | an empty payment for 10.00 fails with `InsufficientPayment` |
| Scenarios.LargeValuesScenario | src/test/kotlin/CashRegisterTest.kt:122-133 | two million 500-euro notes for a price of 40,000,000,000 cents: change of 1,200,000 notes, positive in value, and the till afterwards |
| Scenarios.NegativePriceScenario | src/main/kotlin/CashRegister.kt:18-26 | with price -1.00 and an empty payment, the till hands out its 1-euro coin |
| Scenarios.GreedyNotExhaustive | src/main/kotlin/CashRegister.kt:87-102 | owing 0.60 from one 50-cent and three 20-cent coins, the pass fails with `NotEnoughChange` although the three 20-cent coins pay it exactly |

## Left out

- `Change`, `Bill`, `Coin` and `MonetaryElement` internals: their source is not part of this model. An inventory is a map from denomination to count. A denomination is a bill or coin with a value in minor units. `getElements` is the key set of the map. Entries whose count drops to zero stay in the map at zero, which does not change the total.
- Scenarios: the euro catalog's values are an example, not read from source. Two values follow from the tests. `TEN_EURO` is 1000, because paying 1000 with one note is exact. `TWENTY_EURO` is 2000, because 2000 - 1760 gives the expected 240. The others follow the names. The general model does not depend on these values.
- The catalog order: `sortedByDescending` (`CashRegister.kt:82-84`) is not computed. The catalog is given already sorted with strictly decreasing values. Ties, whose order would depend on the sort's stability, are excluded.
- Greedy.Take: does not model the `.toInt()` truncation of `remaining / minorValue` (`CashRegister.kt:89`); integers are unbounded.
- Money.TotalOf: does not model 64-bit `Long` overflow of the total. Prices and totals are mathematical integers. The same holds for `remaining -= value * needed` (`CashRegister.kt:93`).
- Aliasing: values stand in for objects. The register's inventory is a value, so the constructor argument does not alias the register's holdings. A payment that is the register's own `Change` object, which in the source would be read while it is being changed, is not modelled.
- Exceptions: `TransactionException` is a failure outcome with one constructor per message (`CashRegister.kt:19`, `:23`, `:101`). The message strings and the `cause` parameter (`CashRegister.kt:107`) are not modelled. The tests name the separate kinds `TransactionException.InvalidPrice`, `InsufficientPayment` and `NotEnoughChange`, which `CashRegister.kt` does not declare. The model distinguishes exactly those three.
- `Change.remove` of more pieces than stored: this behaviour is in the unseen `Change` class. `Remove` requires enough pieces, and `RemoveChange` proves the register always has them.
- Optimality: the greedy pass is not claimed to find change whenever some combination exists. `GreedyNotExhaustive` shows an instance where it does not.
- Concurrency: sharing one register between threads is not modelled.
