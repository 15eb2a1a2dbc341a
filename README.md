# Phoenix arbitrage bot — a Dafny model of its decision and sizing logic

Phoenix watches a USDT/USDC Uniswap-V2-style pair. Each time the pool changes
(a `Mint`, a `Burn`, or a `Swap` that does not pay out to the bot's wallet), it queues a
decision cycle. The queue runs cycles one at a time. A cycle does four things:

- It reads the two directional prices: what a fixed probe amount of each token fetches from the router. The newer logic probes with one token (10^6 raw units). The older logic probes with 10^18 raw units, far more than the pool holds, so its "prices" are close to the two reserves.
- It checks whether one price is at least `SWAP_THRESHOLD` times the other.
- It picks the dearer token as the one to sell.
- It sells either a fixed amount or the whole balance.

The newer logic (the copy of the app functions in `test/unitTests.js`) adds two things:

- A direction guard `lastSwapDirection`, so the bot never buys the same token twice in a row.
- An impact bound `findOptimalAmount`: the largest amount that, added to the sold token's reserve with the output reserve held fixed (a one-sided deposit), moves the sold token's quote by at most `MAX_PRICE_CHANGE` percent. A real swap also takes its output from the other reserve and moves the quote further.

The older logic (`app/main.js`) has no guard and no bound. It throws on bad balances and validates its threshold and `--amount` at startup. `app/utils/math.js` has a second, closed-form size bound and a digit-count helper.

Modules:

| file | module | models |
|---|---|---|
| `common.dfy` | `Common` | tokens, the per-cycle chain `Snapshot` (two prices, two reserves, two wallet balances), cycle outcomes |
| `arith.dfy` | `Arith` | small arithmetic lemmas over `nat` and `real` |
| `pricing.dfy` | `Pricing` | `checkThreshold`, `USDTMoreExpensive`, and the router's `getAmountOut` rule (an assumption about the external router, section 3.2.1 of the Uniswap V2 Core whitepaper) |
| `sizing.dfy` | `Sizing` | `findOptimalAmount` and the price-impact algebra it solves |
| `math_utils.dfy` | `MathUtils` | `calcOptimalSwapAmount`, `getDecimalCount` |
| `events.dfy` | `Events` | the self-swap event filter, and `Queue` as a FIFO of pending tasks |
| `bot.dfy` | `Bot` | the newer cycle: the spec function `Decide`, and class `Bot` holding `lastSwapDirection` with `Swap`, `ComparePricesAndSwap` and a queue `Drain` |
| `legacy.dfy` | `Legacy` | startup validation and the older cycle of `app/main.js` |

Modelling conventions:

- Prices and balances are natural numbers read from one `Snapshot` per cycle.
- `FixedNumber` and JS `Number` arithmetic are exact rationals (`real`).
- The outcome of a cycle is `NoOp(reason)`, `Swapped(from, to, amount)` or `Failed(failure)`. A JS `throw` and a rejected transaction are both `Failed`.
- A swap goes through when the input `accepted` holds (approval, gas) and the router takes the trade: it quotes it at 1 unit or more (`Pricing.RouterAccepts`).

## Model

| member | source | states |
|---|---|---|
| Pricing.ThresholdReached | test/unitTests.js:136-151 | `checkThreshold`: one price is at least `t` times the other (partners: `ThresholdSymmetric`, `DirectionsExclusive`) |
| Pricing.UsdtMoreExpensive | test/unitTests.js:118-131 | `USDTMoreExpensive`: `usdtPrice >= usdcPrice * t` (partner: `Seller`) |
| Pricing.Seller | test/unitTests.js:118-131 | Once the threshold is reached, the token sold is `t` times dearer than the other; for `t > 1` and a nonzero price it is the only such token, so USDC is sold exactly when `usdcPrice >= usdtPrice * t` |
| Pricing.ThresholdSymmetric | test/unitTests.js:136-151 | The threshold test gives the same answer with the two prices swapped |
| Pricing.DirectionsExclusive | test/unitTests.js:118-151 | For `t > 1` and a nonzero price, "USDT is `t` times dearer" and "USDC is `t` times dearer" never both hold |
| Pricing.EqualPricesThreshold | app/main.js:87-97 | Equal prices reach the threshold iff the price is 0 or `t <= 1` |
| Pricing.ForkPricesSellUsdc | test/unitTests.js:492-512 | The expected fork prices (USDT 992085, USDC 1001938) reach threshold 1.001, and USDC is sold |
| Pricing.GetAmountOut | test/unitTests.js:95-114 | The router's quote, an assumption about the external router: none for a zero input or an empty reserve, otherwise the floored fee-adjusted constant-product output (partners: `QuoteBelowReserve`, `RouterAcceptsIff`) |
| Pricing.Quote | test/unitTests.js:95-114 | The floored quote `997 a rOut / (1000 rIn + 997 a)` (partners: `QuoteBelowReserve`, `PlentifulTokenIsCheaper`) |
| Pricing.RouterAccepts | test/unitTests.js:157-168 | `swapExactTokensForTokens(amount, 1, …)` executes only if the trade is quoted at 1 unit or more (partner: `RouterAcceptsIff`) |
| Pricing.RouterAcceptsIff | test/unitTests.js:164-168 | The router takes a trade iff the input and both reserves are nonzero and `997 a rOut >= 1000 rIn + 997 a`; it never takes a 0-token trade |
| Pricing.QuoteBelowReserve | test/unitTests.js:95-114 | Under the assumed router rule, a quote is always below the output reserve |
| Pricing.PlentifulTokenIsCheaper | test/unitTests.js:95-114 | Under the assumed router rule, the token the pool holds more of never quotes higher than the other |
| Pricing.PoolHeavyInUsdtSellsUsdc | test/unitTests.js:95-131 | With router prices, a pool holding at least as much USDT as USDC never makes USDT the token to sell (`t > 1`) |
| Pricing.BalancedPoolDoesNotTrigger | test/unitTests.js:95-151 | With equal reserves and `t > 1`, a nonzero price never reaches the threshold |
| Sizing.IntegerPart | test/unitTests.js:229-233 | Keeping the part before "." truncates toward zero: the floor for non-negative values, the ceiling for negative ones |
| Sizing.MaxReserveIn | test/unitTests.js:217-226 | `maxReserveIn = (100000 r + 997 m a) / (1000 (100 - m))` (partner: `ImpactBoundIff`) |
| Sizing.FindOptimalAmount | test/unitTests.js:207-235 | `findOptimalAmount`: the integer part of `maxReserveIn - r` (partners: `OptimalAmountClosedForm`, `OptimalAmountWithinImpact`, `OptimalAmountIsLargest`) |
| Sizing.SpotQuote | test/unitTests.js:203-216 | The unfloored router quote of `a` units on the raw reserve, which the derivation of the bound assumes; it states the impact bound (partner: `ImpactBoundIff`) |
| Sizing.HeadroomIsExcess | test/unitTests.js:217-228 | `maxReserveIn - reserve` equals `m (1000 r + 997 a) / (1000 (100 - m))` |
| Sizing.HeadroomNonNegative | test/unitTests.js:217-228 | That headroom is never negative for `0 <= m < 100` |
| Sizing.OptimalAmountClosedForm | test/unitTests.js:207-235 | `findOptimalAmount` is the floor of the exact headroom and is never negative |
| Sizing.OptimalAmountZeroWithoutImpact | test/unitTests.js:217-234 | With `MAX_PRICE_CHANGE = 0` the bound is 0 |
| Sizing.OptimalAmountMonotoneInReserve | test/unitTests.js:207-235 | A larger reserve of the sold token never gives a smaller bound |
| Sizing.OptimalAmountMonotoneInImpact | test/unitTests.js:207-235 | A larger allowed price change never gives a smaller bound |
| Sizing.OptimalAmountExpectedValue | test/unitTests.js:542-547 | The expected USDT bound 3388339801 comes out for reserve 335444643299 at a 1% change and a 1-token price probe |
| Sizing.ImpactBoundIff | test/unitTests.js:203-228 | Adding `x` to the reserve keeps the sold token's quote within `m`% of its current quote iff `reserve + x <= maxReserveIn` |
| Sizing.OptimalAmountWithinImpact | test/unitTests.js:203-235 | Adding `findOptimalAmount` to the sold token's reserve, with the output reserve held fixed (a one-sided deposit), keeps the quote within `m`% |
| Sizing.OptimalAmountIsLargest | test/unitTests.js:203-235 | With the output reserve held fixed (a one-sided deposit), one unit more than `findOptimalAmount` moves the quote by more than `m`% |
| MathUtils.ExactSwapAmount | app/utils/math.js:14 | `reserve * MAX_PRICE_IMPACT / ((1 - MAX_PRICE_IMPACT) * (1 - FEE))` in exact rationals (partner: `SwapFactor`) |
| MathUtils.CalcOptimalSwapAmount | app/utils/math.js:13-16 | `calcOptimalSwapAmount`: the floor of that amount (partners: the `CalcOptimalSwapAmount*` lemmas) |
| MathUtils.SwapFactor | app/utils/math.js:1-14 | The exact amount is `reserve * 5000 / 9965015`, from the constants FEE 0.003 and MAX_PRICE_IMPACT 0.0005 |
| MathUtils.CalcOptimalSwapAmountFloor | app/utils/math.js:13-16 | `result <= exact amount < result + 1` |
| MathUtils.CalcOptimalSwapAmountBounds | app/utils/math.js:13-16 | For a non-negative reserve, `0 <= result <= reserve` |
| MathUtils.CalcOptimalSwapAmountZero | app/utils/math.js:13-16 | A zero reserve gives 0 |
| MathUtils.CalcOptimalSwapAmountMonotone | app/utils/math.js:13-16 | The result never decreases as the reserve grows |
| MathUtils.NumDigits | app/utils/math.js:9 | `toString().length` of a natural (partner: `NumDigitsBounds`) |
| MathUtils.GetDecimalCount | app/utils/math.js:7-10 | `getDecimalCount`: the digit count of `max(x, y)` (partner: `DecimalCountIsLongerLength`) |
| MathUtils.NumDigitsBounds | app/utils/math.js:7-10 | The length of a natural's decimal string is the `d >= 1` with `10^(d-1) <= n < 10^d` (1 for 0) |
| MathUtils.NumDigitsMonotone | app/utils/math.js:7-10 | A larger natural never has a shorter decimal string |
| MathUtils.DecimalCountIsLongerLength | app/utils/math.js:7-10 | `getDecimalCount(x, y)` is the longer of the two digit counts; it is symmetric and at least 1 |
| Events.TriggersCycle | app/main.js:267-276 | An event enqueues a cycle unless it is a Swap whose `to` is the bot's wallet (partner: `TriggeredExactly`) |
| Events.Triggered | app/main.js:257-276 | The events that enqueue a cycle, in arrival order (partners: `TriggeredExactly`, `TaskQueue.Listen`) |
| Events.TriggeredExactly | app/main.js:257-276 | Every event except a Swap paid out to the bot's own wallet enqueues exactly one cycle, and only those events do |
| Events.SelfSwapIgnored | app/main.js:257-276 | A Swap to the bot's wallet enqueues nothing; Mint, Burn and a Swap to anyone else each enqueue one cycle, in order |
| Events.TaskQueue.constructor | app/main.js:30-48 | A new queue holds no pending task |
| Events.TaskQueue.Add | app/main.js:35-39 | A task is appended after every task already queued (FIFO) |
| Events.TaskQueue.Listen | app/main.js:257-276 | Feeding events to the handlers appends exactly the filtered events, in arrival order |
| Bot.CheckBalance | test/unitTests.js:195-201 | `checkBalance`: false exactly when the balance is below the amount (partners: `DecideFixedAmount`, `CheckBalanceEmptyWallet`) |
| Bot.CheckBalanceEmptyWallet | test/unitTests.js:537-540 | `checkBalance` is false for 1000 tokens against an empty wallet |
| Bot.OptimalAmount | test/unitTests.js:207-211 | `findOptimalAmount(token)` on the reserve of the token sold (partners: `DecideWithinLimits`, `DecideKeepsImpact`) |
| Bot.Decide | test/unitTests.js:244-403 | The decision of `comparePricesAndSwap` with a zero amount meaning whole balance in both branches (partners: the `Decide*` lemmas) |
| Bot.Cycle | test/unitTests.js:157-174 | The decision, turned into a failure when the transactions or the router refuse the swap (partners: `CycleSwapIsExecutable`, `Bot.ComparePricesAndSwap`) |
| Bot.After | test/unitTests.js:169-173 | The guard after a cycle: the token bought if a swap completed, else unchanged (partners: `EmptyWalletSwapFails`, `RunRespectsGuard`) |
| Bot.DecideThresholdFirst | test/unitTests.js:248-253 | A cycle is a threshold no-op exactly when the threshold is not reached; nothing else is consulted first |
| Bot.DecideSwapDirection | test/unitTests.js:255-264 | A swap sells the `t`-times-dearer token, buys the other, and never buys what the guard holds |
| Bot.DecideGuard | test/unitTests.js:255-342 | USDT dearer with last = USDC, or USDC dearer with last = USDT, is a no-op |
| Bot.DecideFixedAmount | test/unitTests.js:269-294 | For a nonzero amount: a balance below it is a no-op; so is an amount over the bound, checked second and rejected, not clamped; otherwise exactly `amount` is swapped |
| Bot.DecideWholeBalance | test/unitTests.js:296-327 | For a zero amount, `min(balance, bound)` is swapped |
| Bot.DecideWithinLimits | test/unitTests.js:244-407 | A swap never exceeds the seller's balance or the impact bound |
| Bot.DecideKeepsImpact | test/unitTests.js:266-318 | Every swap the cycle decides is small enough that, deposited into the sold token's reserve with the output reserve held fixed (a one-sided deposit), it keeps the sold token's quote within `MAX_PRICE_CHANGE` percent |
| Bot.SwapOfBoundExceedsImpact | test/unitTests.js:203-235 | The bound does not cover a real swap: with both reserves at 10^12, a one-token probe and a 1% bound, swapping the whole `findOptimalAmount` (10101020171) also takes 9970308949 from the output reserve, and the quote falls by between 1.5% and 2% |
| Bot.CycleSwapIsExecutable | test/unitTests.js:157-174 | A completed swap is the decided one, of a positive amount within the balance, quoted by the router at 1 unit or more |
| Bot.EmptyWalletSwapFails | test/unitTests.js:297-327 | Whole-balance mode with an empty wallet decides a 0-token swap; the router refuses it, the cycle fails and the guard is unchanged |
| Bot.ForkCycleSellsUsdc | test/unitTests.js:549-560 | At the fork prices, with one token requested and the guard left at USDC by the direct swap at :526, a funded cycle within the bound swaps one USDC for USDT |
| Bot.DecideAsWritten | test/unitTests.js:255-403 | `comparePricesAndSwap` as written: past the guard the USDT branch throws at :270, the rest as `Decide` (partners: `UsdtBranchAsWritten`, `AsWrittenAgreesElsewhere`) |
| Bot.UsdtBranchAsWritten | test/unitTests.js:267-270 | As written, every cycle that gets past the guard in the USDT branch fails, for every amount, where the intended rule never fails and sells `min(balance, bound)` for a zero amount |
| Bot.AsWrittenAgreesElsewhere | test/unitTests.js:331-403 | Everywhere else (threshold and guard no-ops, the whole USDC branch) as written and intended agree |
| Bot.UsdtBranchCounterexample | test/unitTests.js:270 | A concrete input where they differ: 5 USDT held, USDT 2% dearer, guard unset; as written it fails for AMOUNT and for 0, intended it sells AMOUNT or all 5 USDT |
| Bot.Replay | test/unitTests.js:169-173 | The guard after a sequence of outcomes (partners: `NoRepeatedSwap`, `Bot.Drain`) |
| Bot.Run | app/main.js:35-39 | Running the queue yields one outcome per task; a failed task does not stop later ones |
| Bot.RunRespectsGuard | test/unitTests.js:255-342 | In any run, each swap buys a token other than the one the guard held just before it |
| Bot.NoRepeatedSwap | test/unitTests.js:260-264 | In any run, between two swaps into the same token lies a swap into the other |
| Bot.FirstSwapRespectsStart | test/unitTests.js:260-264 | The first swap of a run never buys what the guard held when the run started |
| Bot.Bot.constructor | test/unitTests.js:41 | The guard starts unset |
| Bot.Bot.Swap | test/unitTests.js:157-174 | A swap that the transactions and the router take sets the guard to the token bought; any other fails and leaves the guard unchanged |
| Bot.Bot.ComparePricesAndSwap | test/unitTests.js:244-407 | The outcome is the cycle for the current guard; the guard changes only on a completed swap, to the token bought |
| Bot.Bot.Drain | app/main.js:30-48 | Draining the queue runs one cycle per pending task, oldest first, each seeing the guard the earlier ones left; the queue ends empty |
| Legacy.Startup | app/main.js:211-255 | The threshold and `--amount` checks of `listenAndSwap` (partners: `StartupAccepts`, `StartupThresholdFirst`) |
| Legacy.StartupAccepts | app/main.js:246-255 | Startup succeeds iff the threshold is above 0 and `--amount` is absent or non-negative; an absent amount means 0 |
| Legacy.StartupThresholdFirst | app/main.js:211-214 | A missing or non-positive threshold is reported whatever the amount |
| Legacy.StartupDefaults | app/main.js:246-255 | Examples: no amount gives 0; amount -1 is refused; a zero threshold is reported before the amount |
| Legacy.LowThresholdAlwaysReached | app/main.js:211-214 | Startup accepts any threshold in (0, 1], and at such a threshold every pair of prices triggers a cycle |
| Legacy.LegacyCycleAsWritten | app/main.js:127-199 | The older `comparePricesAndSwap` as written (partners: the `Legacy*` lemmas, `ComparePricesAndSwap`) |
| Legacy.LegacyThresholdGate | app/main.js:127-134 | Below the threshold the cycle does nothing and nothing fails |
| Legacy.OlderPriceNearReserve | app/main.js:52-64 | The older price probe of 10^18 raw units, against a pool of about 3.35·10^11 USDT and 3.37·10^11 USDC, fetches all but less than one token of the opposite reserve, in both directions |
| Legacy.LegacyDirection | app/main.js:66-82 | The swap is USDT→USDC iff `usdtPrice >= usdcPrice * SWAP_THRESHOLD`, otherwise USDC→USDT |
| Legacy.LegacyFixedAmount | app/main.js:140-153 | For a nonzero amount: a zero balance fails first, then `balance <= amount` fails; a swap of exactly `amount` happens iff the balance is strictly above it and the router takes it |
| Legacy.LegacyWholeBalance | app/main.js:155-166 | For a zero amount: a zero balance fails, otherwise the entire balance is swapped if the router takes it |
| Legacy.LegacySwapWithinBalance | app/main.js:127-203 | A legacy swap is never of zero tokens and never more than the seller's balance |
| Legacy.ExactBalanceRefused | app/main.js:146-149 | A wallet holding exactly the requested amount is refused |
| Legacy.ComparePricesAndSwap | app/main.js:127-203 | The cycle with the covering test corrected to `balance < amount`: every error case, and the swap of `amount` (or of the whole balance) when covered and taken by the router; it equals the as-written cycle except when balance equals amount |

## Left out

- Chain I/O: contract binding, `approve`/`wait`, `swapExactTokensForTokens`, the gas-price multiplier, the deadline, provider and wallet setup. Prices, reserves and balances are inputs in a `Snapshot`. Apart from the router's own refusal (`Pricing.RouterAccepts`), every on-chain failure (allowance, gas) is the single input `accepted`, which means that the approval and the swap transaction were submitted without error. `swap` does not wait for the swap's receipt (test/unitTests.js:164-168, app/main.js:106-112), so a swap that reverts once mined is still counted as done.
- Router prices: `getPriceUSDC`/`getPriceUSDT` and `getAmountsOut` are inputs. The Uniswap V2 `getAmountOut` rule (`Pricing.GetAmountOut`, `Pricing.Quote`, `Sizing.SpotQuote`) is an assumption about the external router. It decides whether a swap executes, and the lemmas about prices use it; the prices a cycle compares are still inputs. The newer `getPriceUSDC`/`getPriceUSDT` (test/unitTests.js:92-114) pass `FixedNumber` reserves, which ethers v5 encodes as reserve × 10^18, so the prices the newer cycle compares are quotes on scaled reserves, nearly free of slippage, and not `Quote` or `SpotQuote` on the raw reserves; the pricing lemmas hold for all reserves, the scaled ones included.
- `checkThreshold` and `USDTMoreExpensive` each read the prices again. The model takes one snapshot per cycle. The newer copy's `findOptimalAmount` also reads the reserves again; the model uses the same snapshot.
- Floating point: `toUnsafeFloat` comparisons, the `Number * string` threshold product, JS `Number` in `math.js`, and `FixedNumber`'s 18-decimal rounding in `divUnsafe`. All are exact rationals here. Precision loss near 2^53, `toNumber()` overflow and exponent notation in `toString()` for values of 1e21 and above are not modelled.
- Sizing.FindOptimalAmount: requires `0 <= MAX_PRICE_CHANGE < 100`. At 100 the source divides by zero. Above 100 the model does not follow the source. The source hard-codes 1.
- `findOptimalAmount` is evaluated before the guard in the USDC branch and after it in the USDT branch. Besides reading, it assigns the undeclared globals `maxPriceChange` and `amountForPrice` (test/unitTests.js:214-215). Nothing outside `findOptimalAmount` reads them, so neither the order nor the assignments are modelled.
- Concurrency: the promise queue and the `pair.on` subscriptions become a sequence of pending tasks and a sequence of arriving events. `Bot.Bot.Drain` runs them in order and swallows failures. The chain state each task sees is an input, one snapshot per task.
- The newer copy's event handlers (test/unitTests.js:425-450) add to a `queue` that file never declares, so as written they would throw instead of enqueueing; the test run never reaches them. The model runs the newer cycle on the queue and event filter of app/main.js:30-48 and :257-276.
- `listenAndSwap` runs one `comparePricesAndSwap(AMOUNT)` before it starts listening (test/unitTests.js:421). That call is awaited outside any `catch`, unlike the queued cycles, whose failures app/main.js:35-39 swallows. If it fails, `listenAndSwap` rejects before the `pair.on` subscriptions at :423-450, and the bot never listens. Examples of such a failure are the :270 throw of the USDT branch (`Bot.DecideAsWritten`) and a rejected swap. The model has one call of `Bot.Bot.ComparePricesAndSwap` for it, and does not model the bot stopping before it subscribes.
- Settings: the constants of `init` appear as `Bot.TEST_CONFIG` and `Bot.AMOUNT`. `GAS_MULTIPLIER`, the addresses, `TIMEOUT` and `amountTokenDesired` are not modelled.
- Legacy.Startup: a fractional `--amount` is not modelled (amounts are integers). An unset or non-numeric `SWAP_THRESHOLD` is `None`.
- Bot.DecideAsWritten: follows ethers v5, whose `parseUnits` takes only a decimal string, so :270 throws. A library that accepted the number would instead compare two objects with `!=` by identity. That is also true for every amount, so a zero amount would ask the router for a 0-token swap, which it refuses (`Pricing.RouterAcceptsIff`). That reading is not modelled separately.
- Sizing.OptimalAmountWithinImpact, Bot.DecideKeepsImpact: the bound `findOptimalAmount` computes, and these lemmas state, is for a one-sided deposit into the sold token's reserve with the output reserve held fixed, as the derivation at test/unitTests.js:203-216 assumes. A real swap of that size also takes its output from the other reserve, and moves the quote by about twice `MAX_PRICE_CHANGE` (`Bot.SwapOfBoundExceedsImpact`). No lemma bounds the price move of the swap itself.
- Legacy.LegacyCycleAsWritten: the older prices (app/main.js:52-64) are `getAmountsOut` quotes for `parseUnits("1")`, that is 10^18 raw units of a 6-decimal token, far more than the pool holds. Each "price" is therefore close to the opposite reserve (`Legacy.OlderPriceNearReserve`), and the older threshold in effect compares the two reserves. The Legacy lemmas hold whatever the prices are, because prices are inputs.
- Logging and formatting: `console.log`, `formatUnits`, `showWalletBalance`.
- scripts/events.js and test/events.js (on-chain driver scripts), scripts/DELETEME.js (symbolic root finding in an external library), hardhat.config.js and the mocha harness. The harness serves only as a source of expected values.
- Behaviour the code has that a reader might not expect:
  - The older startup accepts any threshold above 0. At a threshold of 1 or below, every price pair reaches it (`Legacy.LowThresholdAlwaysReached`).
  - Two zero prices do reach the threshold (`Pricing.EqualPricesThreshold`).
  - The swap deadline `TIMEOUT = Date.now() + 600000` (app/main.js:23, test/unitTests.js:72) is in milliseconds, while the router compares it with the block time in seconds, so the deadline never expires and never makes a swap fail.
  - With a zero balance, the newer whole-balance mode passes the tautological `checkBalance(token, balance)` and does not stop early. It attempts a 0-token swap, which the router refuses, so the cycle fails (`Bot.EmptyWalletSwapFails`).

## Findings

| source | as written | input that shows it | evidently intended | confidence | as-written member | corrected member |
|---|---|---|---|---|---|---|
| test/unitTests.js:270 | `amount != parseUnits(0, 6)` passes a number to ethers v5's `parseUnits`, which accepts only a decimal string and throws. So every cycle that gets past the guard while selling USDT fails, whatever the amount. Were the number accepted, `!=` would compare two objects by identity and whole-balance mode would still be unreachable | USDT 2% dearer, 5 USDT held, guard unset, amount AMOUNT or 0: as written the cycle fails | the test reads "amount is not zero", as the USDC branch's `amount != 0` at :345 does: a nonzero amount is a fixed amount, zero means whole balance | medium; not executed | Bot.UsdtBranchCounterexample | Bot.DecideWholeBalance |
| app/main.js:147 | `balance <= amount` throws "does not have a required amount" when the balance equals the amount (the same at :179) | amount 4000000, 4000000 USDC held, USDC 2% dearer: the cycle fails | refuse only a balance below the amount, as the comment beside the test says and as the newer `checkBalance` (`balance.lt(amount)`) does | medium; not executed | Legacy.ExactBalanceRefused | Legacy.ComparePricesAndSwap |
