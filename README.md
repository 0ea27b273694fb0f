# Debt settlement: minimum number of transfers

This project models the algorithmic core of `splitiwse.cpp`, a small benchmark
of three ways to settle a group's debts. A list of transactions
`{from, to, amount}` is reduced to one signed net balance per party. Three
settlers then count the transfers that bring every balance to zero:

- a greedy settler, which pairs the most negative balance with the most
  positive one;
- an exhaustive backtracking search;
- a dynamic program over bit masks of the unsettled balances.

The model follows the source's imperative form:
- the reducer and both scans of the greedy settler are loops over arrays or
  running variables;
- `backtrackingUtil` folds, recurses and undoes its fold on an `array` in
  place;
- the DP fills its `sum` and `dp` tables as arrays, in nested mask and
  sub-mask loops.

Each method is proved against a reference function:
- `Balance` is the reference for the reducer;
- `Search` for the exhaustive search;
- `Cost` for `dp[mask]`;
- `SubsetSum` for the `sum` table.

The main results:
- the reducer conserves money;
- each greedy step makes progress, so the greedy loop stops;
- the backtracking search leaves its vector exactly as it found it;
- the search and the DP return the same answer on every zero-sum balance
  vector (`Optimal.SolversAgree`). Both answers equal the number of unsettled
  balances minus the largest number of zero-sum groups they split into;
- the greedy count is never below that optimum (`Greedy.GreedyMinTransactions`).

`Compare.RunTestCase` states the relations the benchmark reports side by
side: backtracking == DP, and greedy >= DP.

Modules, one per file:
- `options.dfy`: `Option` stands in for the `INT_MAX` sentinel.
- `balances.dfy`: balance vectors.
- `ledger.dfy`: transactions and the reducer.
- `greedy.dfy`: the greedy settler.
- `exhaustive.dfy`: the exhaustive settler.
- `bits.dfy`: masks and bit operations.
- `subsetdp.dfy`: the subset DP.
- `groups.dfy`: splits of a multiset into zero-sum groups.
- `optimal.dfy`: why the two exact solvers agree.
- `compare.dfy`: one benchmark case.

Where the system's specification and the code disagree, the model
follows the code:
- The specification says that `findMin`/`findMax` break ties toward the lowest
  index. The scans compare with `<=` and `>=`, so they return the last index
  holding the extreme value. `FindMin` and `FindMax` state that.
- The specification says that the reducer rejects party ids outside `[0, n)`
  and non-positive amounts with an error. The code checks neither and indexes
  the vector directly. `GetNetBalances` therefore requires valid party ids
  (`ValidParties`), and it accepts any amount, as the code does.
- The specification asks the exhaustive search to report "no feasible
  settlement" distinctly from a count. The code returns `INT_MAX`, and line
  72 adds 1 to it. The model returns `None` there and proves that this
  happens exactly when the balances do not sum to zero.

## Model

| member | source | states |
|---|---|---|
| Ledger.GetNetBalances | splitiwse.cpp:10-17 | one balance per party; each entry is everything the party received minus everything it paid (`Balance`); the entries sum to 0 |
| Greedy.FindMin | splitiwse.cpp:20-31 | the result is at most 0 and at most every entry; when some entry is <= 0 it is the minimum, held at the returned index and at no later index; otherwise the result is (0, 0) |
| Greedy.FindMax | splitiwse.cpp:34-45 | mirror of FindMin: at least 0 and every entry; when some entry is >= 0 the maximum at its last index; otherwise (0, 0) |
| Greedy.Settled | splitiwse.cpp:56 | the moved amount is `min(abs(mini), maxi)`: at most both and equal to one of them |
| Greedy.StepHasBothSides | splitiwse.cpp:51-54 | on a zero-sum vector, when the loop does not stop, the clamped minimum is a real debtor (< 0) and the maximum a real creditor (> 0) |
| Greedy.StepProgress | splitiwse.cpp:56-59 | one step moves a positive amount; neither balance changes sign; one of them is settled; the sum is kept; the count of unsettled parties and the bound (unsettled - 1) both drop |
| Greedy.StepValues | splitiwse.cpp:56-58 | on the unsettled balances, one step replaces debtor x and creditor y by x + y (dropped when it is 0) |
| Greedy.StepOptimal | splitiwse.cpp:56-59 | the fewest transfers before a greedy step is at most one more than the fewest after it |
| Greedy.GreedyMinTransactions | splitiwse.cpp:48-62 | on zero-sum input the loop stops; the count is 0 iff every balance is 0, at most (unsettled parties - 1), and never below the optimum `Search(net, 0)` |
| Options.Min | splitiwse.cpp:72 | `min` with `INT_MAX` as None: the result is one of the two and no larger than either finite one |
| Exhaustive.FirstNonZero | splitiwse.cpp:65 | the skipping loop stops at the first unsettled index from `start` on, or at the end |
| Exhaustive.BacktrackingUtil | splitiwse.cpp:64-77 | returns `Search` of the vector it was given and leaves the vector exactly as it found it |
| Exhaustive.BacktrackingMinTransactions | splitiwse.cpp:79-81 | runs the search on a copy; finite iff the balances sum to 0; 0 iff every balance is 0; at most (unsettled parties - 1) |
| Exhaustive.FoldKeepsSum | splitiwse.cpp:71 | folding `net[start]` into `net[i]` moves the whole suffix sum onto the suffix after `start` |
| Exhaustive.PartnerExists | splitiwse.cpp:69-70 | an unsettled first party of a zero-sum suffix always has a later partner of opposite sign |
| Exhaustive.BestFoldLe | splitiwse.cpp:69-75 | the loop's minimum is no worse than any partner tried |
| Exhaustive.BestFoldAttained | splitiwse.cpp:69-75 | a finite minimum is the cost of some partner |
| Exhaustive.SearchFeasible | splitiwse.cpp:64-77 | the search is finite (not `INT_MAX`) exactly when the suffix from `start` sums to 0 |
| Exhaustive.FoldFeasible | splitiwse.cpp:69-73 | a fold is finite exactly for an opposite-sign partner in a zero-sum suffix |
| Exhaustive.BestFoldPositive | splitiwse.cpp:72 | every finite fold costs at least one transfer |
| Exhaustive.SearchZero | splitiwse.cpp:65-66 | the search returns 0 exactly when every entry from `start` on is 0 |
| Exhaustive.FoldCount | splitiwse.cpp:70-71 | folding `net[start]` into an opposite-sign `net[i]` leaves at least one unsettled party fewer after `start`, out of at least two |
| Exhaustive.SearchBound | splitiwse.cpp:64-77 | a finite search result is at most one fewer than the unsettled parties from `start` on |
| SubsetDP.NonZeros | splitiwse.cpp:84-86 | `debts` has one entry per unsettled party, none of them 0 |
| SubsetDP.CollectDebts | splitiwse.cpp:84-86 | the first loop builds `debts` as the unsettled balances in party order |
| SubsetDP.NonZerosSum | splitiwse.cpp:84-86 | `debts` sums to the same total as `net` |
| SubsetDP.NonZerosValues | splitiwse.cpp:84-86 | `debts` holds exactly the unsettled balances of `net` |
| SubsetDP.SubsetSums | splitiwse.cpp:91-96 | the table has `1 << n` entries, and `sum[mask]` is the sum of `debts[k]` over the bits k of mask |
| SubsetDP.SubsetSumLowBit | splitiwse.cpp:93-95 | a mask sums to the mask without its lowest bit plus `debts[ctz(mask)]` |
| SubsetDP.SumStep | splitiwse.cpp:93-95 | the same step in the source's 32-bit operations: `mask & -mask` is the lowest bit, `mask ^ lsb` is smaller, and `ctz` indexes `debts` |
| SubsetDP.SubsetSumFull | splitiwse.cpp:112 | the full mask `(1 << n) - 1` sums all debts |
| SubsetDP.SubsetSumSingle | splitiwse.cpp:102-103 | a single unsettled balance never forms a zero-sum mask |
| SubsetDP.SettleMask | splitiwse.cpp:102-108 | for a zero-sum mask, the sub-mask loop leaves `dp[mask] == Cost(mask)` and changes no other entry |
| SubsetDP.FirstCandidate | splitiwse.cpp:104 | the loop starts at a proper sub-mask `(mask - 1) & mask`, with no split above it |
| SubsetDP.NextCandidate | splitiwse.cpp:104-107 | one turn of the sub-mask loop keeps `dp[mask]` equal to the best over every sub-mask visited so far, skipping none |
| SubsetDP.NextSubmaskSplits | splitiwse.cpp:104 | `(sub - 1) & mask` is the next smaller sub-mask, and the best split so far now includes `sub` |
| SubsetDP.SkipToPrev | splitiwse.cpp:104 | no sub-mask lies between `(sub - 1) & mask` and sub, so no candidate split is skipped |
| SubsetDP.CostFinite | splitiwse.cpp:98-109 | `dp[mask]` is finite exactly when `sum[mask] == 0`, and then at most `popcount(mask) - 1` |
| SubsetDP.SplitsAtMost | splitiwse.cpp:104-107 | the best split is no worse than any finite candidate |
| SubsetDP.SplitsAttained | splitiwse.cpp:104-107 | a finite best split comes from some candidate |
| SubsetDP.CostAtMostSplit | splitiwse.cpp:104-107 | `dp[mask] <= dp[sub] + dp[mask ^ sub]` for every proper non-empty sub-mask with both halves finite |
| SubsetDP.CostPositive | splitiwse.cpp:103-106 | a non-empty finite mask of unsettled balances costs at least one transfer |
| SubsetDP.DpBitmaskMinTransactions | splitiwse.cpp:83-113 | returns `dp[(1 << n) - 1] == Cost(...)`; it is finite iff the balances sum to 0, 0 iff all are settled (the `n == 0` return), and at most (unsettled parties - 1) |
| SubsetDP.DpOutcome | splitiwse.cpp:112 | for non-empty debts, the answer is finite iff they sum to 0, never 0, and at most (count - 1) |
| Bits.LowBitOf32 | splitiwse.cpp:93 | `mask & -mask`, computed on 32-bit two's-complement patterns, is the lowest set bit |
| Bits.LowBitFacts | splitiwse.cpp:93-94 | the lowest bit is `1 << ctz(mask)`, a sub-mask of mask, and removing it drops the popcount by one |
| Bits.CtzBound | splitiwse.cpp:94 | `ctz` of a mask below `1 << n` is a valid index into `debts` |
| Bits.NextSubmask | splitiwse.cpp:104 | every sub-mask below sub is at most `(sub - 1) & mask` |
| Bits.AndIsSubmask | splitiwse.cpp:104 | `a & mask` is a sub-mask of mask, no larger than a |
| Bits.XorOfSubmask | splitiwse.cpp:105-106 | for a sub-mask, `mask ^ sub` is `mask - sub` |
| Bits.PopCountSplit | splitiwse.cpp:103 | the popcount of a mask splits between a sub-mask and its rest |
| Bits.PopCountOfFull | splitiwse.cpp:112 | `(1 << n) - 1` has n bits set |
| Bits.SubmaskOfFull | splitiwse.cpp:112 | every mask below `1 << n` is a sub-mask of the full mask |
| Bits.Pow2BelowWord | splitiwse.cpp:91 | for n <= 32, `1 << n` is at most 2^32, so every mask below `1 << n` is a 32-bit pattern |
| Balances.NeverOneUnsettled | splitiwse.cpp:54 | a zero-sum vector never has exactly one unsettled party |
| Balances.NoneUnsettled | splitiwse.cpp:54 | no unsettled party exactly when every balance is 0 |
| Optimal.TransferStep | splitiwse.cpp:56-58 | one transfer that merges balances x and y costs the optimum at most one |
| Optimal.SearchAtMost | splitiwse.cpp:64-77 | for every split of the unsettled balances into zero-sum groups, the search is finite and at most (balances - groups) |
| Optimal.SearchPartition | splitiwse.cpp:64-77 | a finite search result equals (balances - groups) for some split into zero-sum groups |
| Optimal.ChoosePartner | splitiwse.cpp:69-72 | a split into zero-sum groups names a later opposite-sign partner whose fold keeps a split with no fewer groups |
| Optimal.FoldValues | splitiwse.cpp:71 | folding `net[start]` into `net[i]` replaces `net[i]` by `net[i] + net[start]` among the unsettled balances |
| Optimal.PickSum | splitiwse.cpp:95 | the debts a mask selects sum to the mask's subset sum |
| Optimal.PickSize | splitiwse.cpp:103 | a mask selects `popcount(mask)` debts |
| Optimal.CostAtMost | splitiwse.cpp:101-109 | for every split of the masked debts into zero-sum groups, `dp[mask]` is finite and at most (popcount - groups) |
| Optimal.CostPartition | splitiwse.cpp:101-109 | a finite `dp[mask]` equals (popcount - groups) for some split into zero-sum groups |
| Optimal.SolversAgree | splitiwse.cpp:141-146 | the backtracking search and the DP give the same count on every zero-sum balance vector (the vectors `runTestCase` passes); off zero-sum input both are None in the model |
| Compare.RunTestCase | splitiwse.cpp:132-151 | on the reduced balances, backtracking == DP, both are finite, greedy >= DP, greedy is 0 iff DP is 0 iff every party is square, and no count exceeds n - 1 |

## Left out

- `generateRandomTransactions` (lines 115-130): random test data from `random_device` and `mt19937`; the model takes any transaction list.
- The timing in `runTestCase` (lines 135-148): clock reads and `double` durations. `Compare.RunTestCase` keeps only the three solver calls and their results.
- `exportCSV` and `main` (lines 153-202): file and console I/O, the benchmark's repeat loop and floating-point averaging.
- Machine-width arithmetic: balances are unbounded integers. The model does not capture overflow of `long long` balances, of the product `net[start] * net[i]` at line 70 (modelled as a sign comparison), or of `1 + INT_MAX` at line 72 (modelled as None staying None).
- SubsetDP.DpBitmaskMinTransactions: requires at most 30 unsettled balances, so that `1 << n` at lines 91 and 98 fits the 32-bit `int`. The source has no such check.
- Compare.RunTestCase: requires at most 30 parties, for the DP's bound.
- Optimal.SolversAgree: off zero-sum input both solvers are None in the model, but the source does not agree there. On `[1, -2]` the search folds 1 into -2, gets `INT_MAX` back, and line 72 computes `1 + INT_MAX`, a signed overflow. The DP returns `INT_MAX`. The model does not capture that overflow, so agreement holds only on zero-sum input, which is all `runTestCase` passes.
- Greedy.GreedyMinTransactions: requires balances that sum to 0. On other input the source loops forever: `settled` becomes 0 and nothing changes.
- Ledger.GetNetBalances: requires every party id in `[0, n)`. The source indexes the vector unchecked, so another id is undefined behaviour rather than a reported error.
