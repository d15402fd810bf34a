# Telos system contracts, verified

A Dafny model of the parts of the Telos system contracts, and of the arithmetic and encoding libraries under its EVM,
whose correctness does not show from reading one function. `dafny verify dfyconfig.toml` checks the whole project.

**Staking and REX.** `SystemTables` holds the tables of `rex.cpp` and `delegate_bandwidth.cpp` together with the token
ledger: the REX pool, funds, balances with their maturity buckets, CPU and NET loans, sell orders, delegations, resource
totals and refunds. `RexMaturities`, `RexPool`, `RexLedger`, `Bandwidth` and `SystemActions` say what every action does;
`SystemBooks` states the books that must agree and `RexInvariant`, `RexActionsKept` and `BandwidthKept` prove that each
step keeps them. `SystemSafety` has the results: solvency of eosio.rex and eosio.stake over every run, agreement of
resources with stakes, a REX price that never falls, and that no internal check is ever reached. `SystemContract` is the
contract itself, a class that changes the tables in place, each action proved to do what its specification says, outcome
and whole state; its `Push` is a transaction that keeps the books.

What each action does, who may do it, whose rows change and by how much, is stated in numbers beside the specification:
`RexEffects` (funds and loans), `RexOrders` (buying, selling, the queue), `BandwidthEffects` (delegations and refunds).
`RexLocked` follows REX through runs: nothing makes REX bought today sellable within four days. `RexProgress` shows that
every use of REX works off expired loans.

An action has one of three outcomes: it succeeds, it is refused by a check meant for its caller, or it breaks, which
stands for a check meant never to fire, a missing row the code does not look for, an overdrawn custodian or a division by
zero. Breaking is what the results exclude. eosio.rex holding more than it owes is possible only because anyone may send
it tokens outright; those gifts are counted apart.

**The drip scheduler.** `RexReturns` compares `update_rex_pool`, which works from a cached rate and settles lazily, with
the definition by buckets that pay their rate once per interval.

**RAM market.** `RamMarket` and `RamContract`: a Bancor connector that can always buy back what it sold, also while the
RAM supply grows, as long as nobody takes the tokens of eosio.ram past it. `ExchangeState` has
the exchange formula it shares with REX loans, and `RamEffects` says what each action buys, pays and changes.

**Votes and schedule.** `Voting`, `VoteDeltas` and `VotingContract` compare incremental tallies with a full recount;
`VotingEffects` says which votes go through. `Rotation` covers the schedule of 21 and the standby rotation,
`RotationHeld` what every single call schedules and for how long.

**Payouts.** `Tedp` and `TedpEffects`: capped payouts per interval and the exact split of the REX share.

**Multiword arithmetic (intx).** `MachineWord`, `Uint128`, `Reciprocal`, `WordDivision`, `WordVector`, `KnuthDivision`,
`PowersOfTwo`, `Normalization`, `IntxDivision`, `IntxWide`: from wrapping 64-bit words through reciprocals and Algorithm D
to `addmod` and `mulmod`. Wrap-around is explicit everywhere.

**Number theory (mini-gmp, rational).** `NumberTheory`, `MiniGmpGcd`, `MiniGmpRoot`, `Rational` (module
`RationalNumber`).

**RLP.** `Rlp` and `RlpFormat`: printer and strict parser of Appendix B of the Ethereum Yellow Paper, its bytes in numbers
and what becomes of truncated input.

## Where the code differs from what it says

- `distviarex` checks neither the symbol of its amount nor its caller. The books survive exactly for core tokens from an
  account other than eosio.stake (`SystemSafety.DistributeViaRexExactly`); `SystemSafety.ForeignFeeBreaks` reaches the
  failure from an empty system. In the same way it takes the tokens of eosio.ram without touching
  total_ram_stake, after which nobody can sell RAM (`RamMarket.TakenTokensStopSales`, `RamMarket.SaleStopped`).
- The RLP parser narrows a list length to `size_t` before it checks it, but not a buffer length. On a 32-bit target such
  as WebAssembly a list header that claims 2^32 bytes too many is accepted (`Rlp.NarrowedExample`). Decoding is the
  inverse of encoding exactly when a 64-bit parser accepts the same bytes (`Rlp.CanonicalExactly`).
- A comment in `mpz_gcdext` promises |s| < |u|/2g. What the code ensures is |s| <= |v|/2g, with equality only for
  |v| = 2g, and that with s and t, u and v exchanged when it has exchanged its operands. The promise is kept exactly when
  some cofactor of u can keep it (`MiniGmpGcd.GcdExt`). With a = |u|/g and b = |v|/g that is always so for b <= a and
  never for 2b > a*a - a + 2 (`MiniGmpGcd.NoSmallerCofactor`, sharp by `MiniGmpGcd.LimitIsSharp`); between the two it
  depends on the pair (`MiniGmpGcd.EitherBetween`).
- `pay` sends the REX share also when it rounds to nothing, and the transfer behind `distviarex` refuses it. Such a
  payout stops the payments to everyone (`Tedp.PayExactly`); it fails exactly when the ratio leaves REX a share of less
  than half a unit (`Tedp.SplitExactly`), which happens above 100 percent (`Tedp.HalfAsMuchAgainFails`) and at 100
  (`Tedp.EvenShareFails`).
- With at most 21 candidates a held rotation can put one name into the schedule twice: `Rotation.SmallScheduleExactly`
  says exactly when, and `Rotation.HeldRotationRepeats` gets there in two calls.

## Model

| member | source | states |
|---|---|---|
| `SystemSafety.RexSolvent` | libs/eosio.system/src/rex.cpp:11-976 | Solvency over every run from an empty system: the tokens of eosio.rex are exactly the REX funds, the CPU and NET loan balances, total_lendable and the unclaimed proceeds of filled orders (plus what anyone sent it outright) |
| `SystemSafety.StakeSolvent` | libs/eosio.system/src/delegate_bandwidth.cpp:170-426 | Over every run eosio.stake holds exactly all delegations and all pending refunds (plus outright gifts), with unstaketorex moving the same amount out of both |
| `SystemSafety.ResourcesAgree` | libs/eosio.system/src/rex.cpp:367-415 | Over every run each receiver's NET and CPU totals are the delegations to it plus the tokens rented for it, across delegate_bandwidth.cpp and rex.cpp |
| `SystemSafety.PoolAgrees` | libs/eosio.system/src/rex.cpp:457-515 | Over every run total_lendable = total_lent + total_unlent, total_lent is the sum of the stakes of all loans, total_rex the sum of all owners' REX, nothing is negative, and there is REX exactly when something is lendable |
| `SystemSafety.OwnersAgree` | libs/eosio.system/src/rex.cpp:996-1213 | Over every run an owner's REX is the matured part plus the buckets, bucket times strictly increase with any savings bucket last, and an open sell order never exceeds the matured part |
| `SystemSafety.NothingBreaks` | libs/eosio.system/src/rex.cpp:286-294 | No action of any run reaches a check meant never to fire ("logic error", "programmer error", "should not occur"), a missing row, an overdrawn custodian or a division by zero |
| `SystemSafety.PriceNeverFalls` | libs/eosio.system/src/rex.cpp:457-500 | While there is REX, total_lendable / total_rex never falls, over a whole run of any actions |
| `SystemSafety.StepSafe` | libs/eosio.system/src/rex.cpp:11-357 | Every admissible action in a state whose books are right either is refused or leaves them right at a price no lower, and never breaks |
| `SystemSafety.RunKeepsInvariant` | libs/eosio.system/src/rex.cpp:11-1213 | The invariant of all books holds after any run |
| `SystemSafety.GenesisInvariant` | libs/eosio.system/src/eosio.system.cpp:520-542 | A chain on which nothing is staked, funded, lent or bought has its books right |
| `SystemSafety.WithdrawExactly` | libs/eosio.system/src/rex.cpp:25-38 | A withdrawal succeeds if and only if the amount is positive and covered by the fund and a filled order; it then pays exactly that and reduces what is left by exactly that |
| `SystemSafety.DistributeViaRexExactly` | libs/eosio.system/src/eosio.system.cpp:565-567 | distviarex checks neither symbol nor caller: with REX available and the fees accepted, the books stay right if and only if they are core tokens of an account other than eosio.stake |
| `SystemSafety.FirstPurchase` | libs/eosio.system/src/rex.cpp:40-56 | From an empty system one deposit and one purchase are admissible and make REX available |
| `SystemSafety.ForeignFeeBreaks` | libs/eosio.system/src/eosio.system.cpp:565-567 | After those two actions any fee in another token is accepted and leaves eosio.rex short |
| `SystemSafety.NoFeeRefused` | libs/eosio.system/src/rex.cpp:936-958 | A fee of nothing is refused whenever REX has tokens to lend |
| `RexInvariant.RunRexKeeps` | libs/eosio.system/src/rex.cpp:522-629 | runrex, from any state with its books right and any limit, keeps every book and the price and never breaks |
| `RexInvariant.ProcessExpiredKeeps` | libs/eosio.system/src/rex.cpp:530-558 | An expired loan leaves the pool, is priced again and renewed or closed; pool, tokens and resources still agree |
| `RexInvariant.RunLoansKeeps` | libs/eosio.system/src/rex.cpp:568-600 | Processing up to any number of expired loans keeps the books; the resource totals can always take the change |
| `RexInvariant.FillQueuedKeeps` | libs/eosio.system/src/rex.cpp:610-624 | The owner of an open order always has a balance row, and filling the order moves its proceeds from the pool to the owner's claim |
| `RexInvariant.RunOrdersKeeps` | libs/eosio.system/src/rex.cpp:602-627 | Trying any number of queued orders in order of time keeps the books |
| `RexInvariant.UpdateLimitsKeeps` | libs/eosio.system/src/rex.cpp:367-415 | update_resource_limits always has room for the change: its "logic error, should not occur" check cannot fire |
| `RexInvariant.ChannelToRexKeeps` | libs/eosio.system/src/rex.cpp:936-958 | Fees enter total_unlent and total_lendable together with the tokens |
| `RexInvariant.ChannelNamebidsKeeps` | libs/eosio.system/src/rex.cpp:560-566 | Name bid proceeds set aside in the pool row reach REX or are dropped, and the books stay right either way |
| `RexActionsKept.DepositSafe` | libs/eosio.system/src/rex.cpp:11-23 | deposit, whatever its arguments, is refused or keeps every book at a price of REX no lower, and meets no check meant never to fire |
| `RexActionsKept.WithdrawSafe` | libs/eosio.system/src/rex.cpp:25-38 | withdraw, whatever its arguments, is refused or keeps every book at a price of REX no lower, and meets no check meant never to fire |
| `RexActionsKept.BuyRexSafe` | libs/eosio.system/src/rex.cpp:40-56 | buyrex, the first purchase and one from an emptied pool included, whatever its arguments, is refused or keeps every book at a price of REX no lower, and meets no check meant never to fire |
| `RexActionsKept.UnstakeToRexSafe` | libs/eosio.system/src/rex.cpp:58-98 | unstaketorex, which changes delegation, totals, both custodians and the pool together, whatever its arguments, is refused or keeps every book at a price of REX no lower, and meets no check meant never to fire |
| `RexActionsKept.SellRexSafe` | libs/eosio.system/src/rex.cpp:100-148 | sellrex, filled at once, queued or added to an open order, whatever its arguments, is refused or keeps every book at a price of REX no lower, and meets no check meant never to fire |
| `RexActionsKept.CancelRexOrderSafe` | libs/eosio.system/src/rex.cpp:150-157 | cnclrexorder, whatever its arguments, is refused or keeps every book at a price of REX no lower, and meets no check meant never to fire |
| `RexActionsKept.RentSafe` | libs/eosio.system/src/rex.cpp:159-175 | rentcpu and rentnet, whatever its arguments, is refused or keeps every book at a price of REX no lower, and meets no check meant never to fire |
| `RexActionsKept.FundLoanSafe` | libs/eosio.system/src/rex.cpp:823-832 | fund_rex_loan, whatever its arguments, is refused or keeps every book at a price of REX no lower, and meets no check meant never to fire |
| `RexActionsKept.DefundLoanSafe` | libs/eosio.system/src/rex.cpp:836-849 | defund_rex_loan, whatever its arguments, is refused or keeps every book at a price of REX no lower, and meets no check meant never to fire |
| `RexActionsKept.UpdateRexSafe` | libs/eosio.system/src/rex.cpp:209-233 | updaterex, whatever its arguments, is refused or keeps every book at a price of REX no lower, and meets no check meant never to fire |
| `RexActionsKept.SetRexSafe` | libs/eosio.system/src/rex.cpp:235-245 | setrex, whatever its arguments, is refused or keeps every book at a price of REX no lower, and meets no check meant never to fire |
| `RexActionsKept.RexExecSafe` | libs/eosio.system/src/rex.cpp:247-252 | rexexec, for any limit, whatever its arguments, is refused or keeps every book at a price of REX no lower, and meets no check meant never to fire |
| `RexActionsKept.ConsolidateRexSafe` | libs/eosio.system/src/rex.cpp:254-263 | consolidate, whatever its arguments, is refused or keeps every book at a price of REX no lower, and meets no check meant never to fire |
| `RexActionsKept.MoveRexToSavingsSafe` | libs/eosio.system/src/rex.cpp:265-297 | mvtosavings, whatever its arguments, is refused or keeps every book at a price of REX no lower, and meets no check meant never to fire |
| `RexActionsKept.MoveRexFromSavingsSafe` | libs/eosio.system/src/rex.cpp:299-320 | mvfrsavings, whatever its arguments, is refused or keeps every book at a price of REX no lower, and meets no check meant never to fire |
| `RexActionsKept.CloseRexSafe` | libs/eosio.system/src/rex.cpp:322-357 | closerex, whatever its arguments, is refused or keeps every book at a price of REX no lower, and meets no check meant never to fire |
| `RexActionsKept.ChannelNamebidSafe` | libs/eosio.system/src/rex.cpp:965-974 | channel_namebid_to_rex, whatever its arguments, is refused or keeps every book at a price of REX no lower, and meets no check meant never to fire |
| `RexActionsKept.OpenLoanKeeps` | libs/eosio.system/src/rex.cpp:734-765 | With payment and fund in hand opening a loan enters both, the rented stake and the resources in every book; its number is always unused |
| `RexActionsKept.BuyRunUpdateSafe` | libs/eosio.system/src/rex.cpp:1038-1089 | From any payment in hand, buying never fails, and buying, runrex and claiming in sequence keep books and price |
| `BandwidthKept.ChangeBandwidthSafe` | libs/eosio.system/src/delegate_bandwidth.cpp:170-346 | changebw for deltas of one sign, stake in or out, keeps every book whoever receives the stake; the refund absorbs part of a new stake before tokens move |
| `BandwidthKept.ChangeTotalsKeeps` | libs/eosio.system/src/delegate_bandwidth.cpp:209-254 | The userres total always takes the change: the negative checks cannot fire |
| `BandwidthKept.ChangeRefundKeeps` | libs/eosio.system/src/delegate_bandwidth.cpp:257-342 | What a refund row absorbs and what is left to be paid add up to the stake change; an undelegation is never paid for |
| `BandwidthKept.ClaimRefundSafe` | libs/eosio.system/src/delegate_bandwidth.cpp:415-426 | A due refund is always covered by eosio.stake, and paying it keeps every book |
| `RexMaturities.MatureSound` | libs/eosio.system/src/rex.cpp:996-1005 | Exactly the buckets that are due move to the matured part, and no due bucket is left |
| `RexMaturities.CreditSound` | libs/eosio.system/src/rex.cpp:1136-1172 | A purchase raises the balance by exactly what was received, lowers nothing that has matured, keeps the buckets in order and the savings untouched; RexMaturities.CreditMatures says when it can be sold |
| `RexMaturities.CreditMatures` | libs/eosio.system/src/rex.cpp:1158-1168 | What can be sold at any time from now on grows by exactly the REX received, from one midnight on that lies more than 345600 and at most 432000 seconds ahead, and not before; the matured part is what could be sold before the purchase |
| `RexMaturities.DebitSound` | libs/eosio.system/src/rex.cpp:783-821 | A sale takes from the matured part alone |
| `RexMaturities.TakeFromBackSound` | libs/eosio.system/src/rex.cpp:278-287 | The loop of mvtosavings moves at most what is asked, latest maturity first, and stops short only when no bucket is left |
| `RexMaturities.MoveToSavingsSound` | libs/eosio.system/src/rex.cpp:265-297 | mvtosavings succeeds if and only if amount, open order and savings fit the balance; it moves exactly that, keeps the open order matured, touches matured REX last, and its "logic error" and "programmer error" checks cannot fire |
| `RexMaturities.MoveToSavingsMatures` | libs/eosio.system/src/rex.cpp:265-297 | mvtosavings takes what would mature last: at any time what can be sold is what could be before, up to all that is left outside the savings |
| `RexMaturities.MoveFromSavingsSound` | libs/eosio.system/src/rex.cpp:299-320 | mvfrsavings succeeds if and only if the savings cover it and moves exactly that |
| `RexMaturities.MoveFromSavingsMatures` | libs/eosio.system/src/rex.cpp:299-320 | REX out of the savings matures as if just bought, at a midnight more than four and at most five days ahead, and nothing else comes free |
| `RexMaturities.ConsolidateSound` | libs/eosio.system/src/rex.cpp:1013-1029 | Consolidation keeps balance and savings and leaves exactly the open order matured |
| `RexMaturities.ConsolidateMatures` | libs/eosio.system/src/rex.cpp:1013-1029 | After consolidation nothing but the open order can be sold until all the rest matures together more than four and at most five days ahead |
| `RexMaturities.PutSavingsSound` | libs/eosio.system/src/rex.cpp:1202-1213 | Savings put back are the savings read out |
| `RexPool.AddToPoolBalanced` | libs/eosio.system/src/rex.cpp:1038-1089 | Buying never fails, adds the payment to the lendable tokens and mints as much REX as it hands out |
| `RexPool.AddToPoolPrice` | libs/eosio.system/src/rex.cpp:1072-1085 | Buying does not lower the price of REX |
| `RexPool.AddToEmptyPool` | libs/eosio.system/src/rex.cpp:1049-1070 | Without REX outstanding the pool holds nothing, so starting it over at 10000 REX a token loses nothing |
| `RexPool.AddToPoolExactly` | libs/eosio.system/src/rex.cpp:1038-1089 | A purchase gets the floor of its share of the REX, or 10000 for each token from an empty pool, whose rent starts at 200000000 |
| `RexPool.SellBack` | libs/eosio.system/src/rex.cpp:1038-1089 | Selling back at once exactly the REX just bought returns at most the payment |
| `RexPool.FillOrderBalanced` | libs/eosio.system/src/rex.cpp:783-821 | A filled order leaves at least a fifth of the lent tokens unlent, keeps the pool balanced and the price from falling, and never divides by zero |
| `RexPool.FillOrderExactly` | libs/eosio.system/src/rex.cpp:783-821 | An order is filled if and only if a fifth of the lent tokens stays unlent, at the floor of what its REX is worth |
| `RexPool.AddLoanBalanced` | libs/eosio.system/src/rex.cpp:457-479 | A loan adds its payment to total_rent and to the unlent tokens, moves the rented tokens from unlent to lent, takes a new number only when new, and does not lower the price of REX |
| `RexPool.LoanRaisesPrice` | libs/eosio.system/src/rex.cpp:457-479 | A loan makes the next one dearer: rent times unlent does not fall even with the payment left out of the unlent tokens |
| `RexPool.NextLoanNoCheaper` | libs/eosio.system/src/rex.cpp:746-750 | An equal payment right after a loan rents no more than the first |
| `RexPool.RemoveLoanBalanced` | libs/eosio.system/src/rex.cpp:486-500 | Removing a loan moves its stake from lent to unlent and takes the floor of staked*rent/(unlent+staked) out of total_rent; lendable tokens and REX stay |
| `RexPool.AddFeeBalanced` | libs/eosio.system/src/rex.cpp:936-958 | A fee goes to the unlent tokens, keeps the pool balanced and the price from falling |
| `RexPool.PriceTransitive` | libs/eosio.system/src/rex.cpp:457-500 | Two steps that do not lower the price do not lower it together |
| `RexLocked.BoughtRexStays` | libs/eosio.system/src/rex.cpp:982-990 | REX bought at t is still held and cannot be sold in any state a run of admissible actions reaches by t + 345600 seconds |
| `RexLocked.RunLocks` | libs/eosio.system/src/rex.cpp:11-357 | No run that ends within four days makes REX sellable by then that was not: not by consolidating, moving savings, queueing orders or closing accounts |
| `RexLocked.StepLocks` | libs/eosio.system/src/rex.cpp:11-357 | No action on REX makes any REX of anybody sellable by a time at most four days ahead that was not, or changes a refund |
| `RexLocked.UnstakeToRexLocks` | libs/eosio.system/src/rex.cpp:58-98 | REX bought with unstaked tokens is locked like REX bought from a fund |
| `RexEffects.DepositExactly` | libs/eosio.system/src/rex.cpp:11-23 | A deposit succeeds if and only if the owner, other than eosio.rex, has the positive amount; exactly that goes from its tokens to its fund |
| `RexEffects.DefundLoanExactly` | libs/eosio.system/src/rex.cpp:836-849 | Tokens come out of a loan if and only if its creator asks, it has not expired and its balance covers the positive amount; they go to the creator's fund, and no other loan or fund changes |
| `RexEffects.FundLoanExactly` | libs/eosio.system/src/rex.cpp:823-832 | Tokens go into a loan if and only if its creator asks, it has not expired and the creator's fund covers the positive amount; no other loan or fund changes |
| `RexEffects.OpenLoanExactly` | libs/eosio.system/src/rex.cpp:744-765 | A loan opens if and only if it rents more than it pays, at the floor of its share of the unlent tokens, under the next number, for thirty days; pool, loan row and receiver's resources as stated, all else unchanged |
| `RexEffects.RentExactly` | libs/eosio.system/src/rex.cpp:733-765 | After runrex rentcpu and rentnet go through if and only if loans are available, the fund covers payment and loan fund, and the loan rents more than it pays |
| `RexEffects.ProcessExpiredExactly` | libs/eosio.system/src/rex.cpp:530-558 | An expired loan is renewed for thirty days out of its own balance, at the price without it, if and only if the balance covers the payment, it still rents more than it pays and no sell order is open; otherwise it ends and its creator gets the balance back |
| `RexEffects.UnexpiredStays` | libs/eosio.system/src/rex.cpp:568-600 | Processing any number of expired loans leaves every loan alone that has not expired, and those of the other resource |
| `RexEffects.EarliestFirst` | libs/eosio.system/src/rex.cpp:571-581 | The loan that expires first is taken first, the lower number among equals, and nothing is done when it has not expired |
| `RexProgress.StepAdvances` | libs/eosio.system/src/rex.cpp:522-600 | Every action that starts with runrex, or buys and runs it, closes or renews the expired loan that was first for CPU, and the one for NET |
| `RexProgress.RunRexAdvances` | libs/eosio.system/src/rex.cpp:568-600 | runrex closes or renews the first expired loan of each resource; the CPU loans leave the NET loans alone |
| `RexProgress.FirstOrderFilled` | libs/eosio.system/src/rex.cpp:602-627 | With nothing else to do, runrex fills the first order of the queue when there are tokens for it, and leaves it filled |
| `RexOrders.SellMaturedExactly` | libs/eosio.system/src/rex.cpp:107-148 | A sale goes through if and only if matured REX beyond the queued order covers it and it is worth something, or has to wait and is not b1's; it is made at once, at the floor of its worth, if and only if a fifth of the lent tokens stays unlent, and otherwise joins the owner's order, which keeps its place |
| `RexOrders.UpdateExactly` | libs/eosio.system/src/rex.cpp:905-928 | update_rex_account puts the proceeds and those of a filled order into the owner's fund, drops that order and no other, and reports the REX still queued |
| `RexOrders.CancelRexOrderExactly` | libs/eosio.system/src/rex.cpp:150-157 | An order can be cancelled if and only if it is still in the queue, and no other goes with it |
| `RexOrders.FillQueuedExactly` | libs/eosio.system/src/rex.cpp:610-624 | An order in the queue is filled if and only if a fifth of the lent tokens stays unlent; its proceeds are set aside for its owner and nobody else's row or order changes |
| `RexOrders.OldestFirst` | libs/eosio.system/src/rex.cpp:602-627 | Orders are tried by time and among equals by name, each once |
| `RexOrders.BuyExactly` | libs/eosio.system/src/rex.cpp:1038-1172 | A purchase adds what it receives to the owner's REX and touches nobody else's |
| `RexOrders.UndelegateForRexExactly` | libs/eosio.system/src/rex.cpp:58-82 | unstaketorex takes from the owner's delegation to the receiver what is there and no more |
| `RexOrders.SetRexExactly` | libs/eosio.system/src/rex.cpp:235-245 | setrex succeeds if and only if REX is initialized and the balance positive, and sets total_rent alone |
| `RexOrders.ChannelNamebidExactly` | libs/eosio.system/src/rex.cpp:965-974 | A winning bid is set aside if and only if anyone holds REX |
| `RexOrders.ChannelNamebidsExactly` | libs/eosio.system/src/rex.cpp:560-566 | What was set aside enters the unlent tokens out of eosio.names, if that has it, and the counter goes to zero |
| `RexOrders.SellRexExactly` | libs/eosio.system/src/rex.cpp:100-148 | After runrex a sale goes through if and only if what has matured by now, taken out of its bucket or not, covers it and the queued order, and it is worth something or has to wait and is not b1's |
| `RexOrders.UpdateRexExactly` | libs/eosio.system/src/rex.cpp:209-233 | updaterex goes through if and only if the owner has a row; all that has matured by now is then sellable and all that was claimable in the fund |
| `RexOrders.ConsolidateRexExactly` | libs/eosio.system/src/rex.cpp:254-263 | consolidate keeps balance and savings of the owner and leaves exactly the queued order matured; nobody else's row changes |
| `RexOrders.MoveRexToSavingsExactly` | libs/eosio.system/src/rex.cpp:265-297 | mvtosavings goes through if and only if the amount is positive and fits the balance with the queued order and the savings; it raises the savings by exactly that |
| `RexOrders.MoveRexFromSavingsExactly` | libs/eosio.system/src/rex.cpp:299-320 | mvfrsavings goes through if and only if the amount is positive and the savings have it; it lowers them by exactly that |
| `RexOrders.CloseRowsExactly` | libs/eosio.system/src/rex.cpp:328-357 | An account is closed if and only if it has no REX; what it had to claim is in its fund |
| `BandwidthEffects.UndelegateExactly` | libs/eosio.system/src/delegate_bandwidth.cpp:393-412 | Undelegation succeeds if and only if it takes a positive part of what is delegated; delegation and resources fall by exactly that, and it is added to the owner's refund, whose time is now |
| `BandwidthEffects.UndelegatedWaits` | libs/eosio.system/src/delegate_bandwidth.cpp:415-426 | After an undelegation no run of admissible actions lets its owner claim a refund within 259200 seconds |
| `BandwidthEffects.DelegateExactly` | libs/eosio.system/src/delegate_bandwidth.cpp:374-391 | Delegation succeeds if and only if the payer has what is owed: all of it, or for staking to oneself what one's own refund does not cover; delegation, resources, refund and tokens change by exactly that and nobody else's |
| `BandwidthEffects.ChangeRefundExactly` | libs/eosio.system/src/delegate_bandwidth.cpp:257-322 | A refund row takes stake taken back and gives for stake put in, NET and CPU apart; it waits from now if it took any, and goes when empty |
| `BandwidthEffects.ClaimRefundExactly` | libs/eosio.system/src/delegate_bandwidth.cpp:415-426 | A refund is paid if and only if it is positive and 259200 seconds have passed; its owner gets all of it and the row goes |
| `SystemContract.Contract.Push` | libs/eosio.system/src/rex.cpp:11-357 | One action as a transaction on the tables: it takes its specified effect or leaves every table as it was; pushed by an admissible caller while the books are right it keeps them and fails only by being refused |
| `SystemContract.Contract.Dispatch` | libs/eosio.system/src/rex.cpp:11-357 | Each action changes the tables exactly as its specification says; refines SystemActions.Step, outcome and whole state |
| `SystemContract.Contract.ProcessRexMaturities` | libs/eosio.system/src/rex.cpp:996-1005 | The loop pops exactly what RexMaturities.Mature says; no other owner is touched |
| `SystemContract.Contract.ConsolidateRexBalance` | libs/eosio.system/src/rex.cpp:1013-1029 | Writes the owner's row of RexMaturities.Consolidate and no other |
| `SystemContract.Contract.TakeBuckets` | libs/eosio.system/src/rex.cpp:278-287 | The loop of mvtosavings moves and leaves what RexMaturities.TakeFromBack says |
| `SystemContract.Contract.RunLoans` | libs/eosio.system/src/rex.cpp:568-600 | The loops over expired CPU and NET loans; refines RexLedger.RunLoans, outcome and whole state |
| `SystemContract.Contract.RunOrders` | libs/eosio.system/src/rex.cpp:602-627 | The loop over the queue, the successor looked up before each fill; refines RexLedger.RunOrders, outcome and whole state |
| `SystemContract.Contract.ChangeRefund` | libs/eosio.system/src/delegate_bandwidth.cpp:257-322 | The refund row of changebw and what is left to pay are those of Bandwidth.ChangeRefund |
| `RexReturns.SettledTwice` | libs/eosio.system/src/rex.cpp:634-731 | Settling the return pool at a and then at b leaves the same rows as settling at b only |
| `RexReturns.UpdatedTwice` | libs/eosio.system/src/rex.cpp:634-731 | The same for update_rex_pool at any two times, rounding to the interval included |
| `RexReturns.SettlementNonNegative` | libs/eosio.system/src/rex.cpp:718-723 | What a settlement pays is never negative and never more than the proceeds: the correction branch is dead |
| `RexReturns.RemainingDecays` | libs/eosio.system/src/rex.cpp:651-653 | Between two settlements every live bucket pays its rate once per interval, so the cached rate pays what the buckets define |
| `RexReturns.EstimateIs` | libs/eosio.system/src/rex.cpp:651-674 | The estimate from the cached rate and the pending bucket is exactly the fall in what the buckets have left |
| `RexReturns.SettledSound` | libs/eosio.system/src/rex.cpp:634-731 | After a settlement current_rate is the sum of the live bucket rates and proceeds is pending plus what the buckets still pay |
| `RexReturns.RunConserves` | libs/eosio.system/src/rex.cpp:1096-1125 | Over any run every fee is in total_unlent or still in the proceeds, which are never negative; payments never go back |
| `RexReturns.PaidInFull` | libs/eosio.system/src/rex.cpp:683-731 | Thirty days after the last bucket opened everything has been paid out |
| `RexReturns.PaidEvenly` | libs/eosio.system/src/rex.cpp:655-674 | A bucket alone in the pool pays a 4320th of its fees, rounded down, for every 600 seconds since it opened, and the rest of the rounding at once |
| `RexReturns.UpdatedUpTo` | libs/eosio.system/src/rex.cpp:640-649 | update_rex_pool settles up to the last full 600 seconds, unless that has been done |
| `RexReturns.OnlyFeesMatter` | libs/eosio.system/src/rex.cpp:634-731 | However often a run settles in between, at any later time only its fees matter |
| `RexReturns.FeeAddedSound` | libs/eosio.system/src/rex.cpp:1096-1125 | A fee is conserved; it joins the fees waiting, or else waits alone for the end of the current twelve hours, a multiple of 43200 less than or exactly 43200 seconds ahead |
| `RexReturns.ReturnPool.ExpireBuckets` | libs/eosio.system/src/rex.cpp:683-716 | Erases exactly the buckets that are over and reports what they were counted for too long |
| `RexReturns.ReturnPool.Settle` | libs/eosio.system/src/rex.cpp:650-731 | The incremental computation from cached rate and proceeds reaches the state defined from the buckets alone |
| `RexReturns.ReturnPool.UpdateRexPool` | libs/eosio.system/src/rex.cpp:634-731 | update_rex_pool, with its early exits |
| `RexReturns.ReturnPool.AddToRexReturnPool` | libs/eosio.system/src/rex.cpp:1096-1125 | add_to_rex_return_pool keeps the pool sound and tokens plus proceeds grow by exactly the fee |
| `ExchangeState.BancorFloor` | libs/eosio.system/src/exchange_state.cpp:81-94 | The Bancor output is the floor of inp*out/(in+inp), never negative and never above the reserve |
| `ExchangeState.ProductGrows` | libs/eosio.system/src/exchange_state.cpp:59-79 | A conversion never lowers the product of the balances |
| `ExchangeState.ExchangeBack` | libs/eosio.system/src/exchange_state.cpp:59-94 | Converting back what a conversion gave returns at most what was paid |
| `RamMarket.AlwaysBuysBack` | libs/eosio.system/src/delegate_bandwidth.cpp:111-159 | In every run from init: base + all ram_bytes = max_ram_size, quote = initial quote + total_ram_stake, base*quote >= max_ram_size*initial quote, the stake is non-negative and covers every sale, and eosio.ram holds the stake plus what came in past the market; a sale goes through if and only if the account has the bytes, they are worth two token units and eosio.ram has the price, and it breaks only where tokens have been taken from eosio.ram |
| `RamMarket.BuyRamSound` | libs/eosio.system/src/delegate_bandwidth.cpp:43-103 | buyram keeps the market sound and never breaks; what it buys and for how much is RamEffects.BuyRamExactly |
| `RamMarket.SellRamSound` | libs/eosio.system/src/delegate_bandwidth.cpp:111-159 | sellram keeps the market sound; its "shouldn't happen" check never fires, and nothing breaks unless tokens have been taken from eosio.ram |
| `RamMarket.SellRamExactly` | libs/eosio.system/src/delegate_bandwidth.cpp:111-159 | In a sound market a sale goes through if and only if the market is open, the account is not eosio.ram, 0 < bytes <= its ram_bytes, 2*(base + bytes) <= bytes*quote and eosio.ram has the price; it breaks if and only if only the price is missing |
| `RamEffects.BuyRamExactly` | libs/eosio.system/src/delegate_bandwidth.cpp:43-103 | A purchase succeeds if and only if the market is open and what is left after the fee of half a percent, rounded up, buys at least a byte; the receiver and nobody else gets the b bytes with b*(quote+paid) <= paid*base < (b+1)*(quote+paid) at the grown balances |
| `RamEffects.SellRamEffect` | libs/eosio.system/src/delegate_bandwidth.cpp:111-159 | A sale takes the bytes from the account and nobody else and pays the floor of bytes*quote/(base+bytes) out of quote, stake and tokens |
| `RamEffects.BoughtBack` | libs/eosio.system/src/delegate_bandwidth.cpp:43-159 | Selling at once what a purchase bought returns at most what entered the market for it |
| `RamEffects.GrownExactly` | libs/eosio.system/src/eosio.system.cpp:113-129 | new_ram_per_block bytes are added for every slot since the last increase, once, and all go on sale |
| `RamEffects.SetRamExactly` | libs/eosio.system/src/eosio.system.cpp:92-110 | setram succeeds if and only if it raises max_ram_size below 1024^5, and puts exactly the difference on sale |
| `RamEffects.SetRamRateExactly` | libs/eosio.system/src/eosio.system.cpp:132-137 | setramrate adds what is due at the old rate before the new one holds |
| `RamEffects.InitExactly` | libs/eosio.system/src/eosio.system.cpp:520-539 | init opens the market once, the unsold RAM against the floor of a thousandth of the supply |
| `RamMarket.TakenTokensStopSales` | libs/eosio.system/src/eosio.system.cpp:565-567 | Once the tokens of eosio.ram have been taken past the market no sale goes through |
| `RamMarket.SaleStopped` | libs/eosio.system/src/eosio.system.cpp:565-567 | From an empty market three actions get there |
| `RamMarket.MoveSound` | libs/eosio.system/src/eosio.system.cpp:565-567 | Tokens sent to eosio.ram or taken from it leave the market itself sound |
| `RamMarket.SupplySound` | libs/eosio.system/src/eosio.system.cpp:113-129 | RAM supply growth, lazily caught up, keeps the market sound and never shrinks max_ram_size |
| `RamMarket.GrownSound` | libs/eosio.system/src/eosio.system.cpp:92-110 | Adding any number of bytes keeps the product bound |
| `RamMarket.SetRamSound` | libs/eosio.system/src/eosio.system.cpp:92-110 | setram keeps the market sound |
| `RamMarket.SetRamRateSound` | libs/eosio.system/src/eosio.system.cpp:132-137 | setramrate keeps the market sound |
| `RamMarket.InitSound` | libs/eosio.system/src/eosio.system.cpp:520-539 | init opens a sound market |
| `RamMarket.StepSound` | libs/eosio.system/src/delegate_bandwidth.cpp:43-159 | Every RAM action keeps the market sound, and breaks only where tokens have been taken from eosio.ram |
| `RamContract.Contract.Push` | libs/eosio.system/src/delegate_bandwidth.cpp:43-159 | One action as a transaction on the market row, the global state and the user rows: a sound market stays sound, and the action takes its specified effect or fails with nothing changed, by being refused unless tokens have been taken from eosio.ram |
| `Voting.TalliesAreRecounts` | libs/eosio.system/src/voting.cpp:307-614 | In every reachable state each producer's votes are the sum over its current voters of weight(number of votes)*staked, activated stake is the sum of the stakes of all who vote and of all last_stake, total weight is the sum of all votes, and no voter is or uses a proxy |
| `Voting.CurrentIsRecounted` | libs/eosio.system/src/voting.cpp:490-590 | While the totals agree with the cached weights and every voting stake has been counted, they are a recount of stakes and votes alone |
| `Voting.UpdateVotesCounts` | libs/eosio.system/src/voting.cpp:491-509 | A vote, and a re-vote for somebody, counts the stake the voter has; an unvote counts none |
| `Voting.NeverRecalculates` | libs/eosio.system/src/voting.cpp:716-747 | In exact arithmetic recalculate_votes never has anything to do |
| `Voting.ClampIdle` | libs/eosio.system/src/voting.cpp:569-576 | A delta never takes a producer below zero: the clamp does nothing |
| `Voting.DeltaIsChange` | libs/eosio.system/src/voting.cpp:510-561 | producer_deltas holds exactly the change in what the voter gives to each producer |
| `Voting.SumWithDeltas` | libs/eosio.system/src/voting.cpp:563-582 | Applying the deltas moves the sum of all votes by their sum |
| `Voting.UpdateVotesAgrees` | libs/eosio.system/src/voting.cpp:490-590 | A vote, a re-vote or an unvote keeps every total equal to the recount of the cached weights |
| `Voting.VoteAgrees` | libs/eosio.system/src/voting.cpp:307-325 | voteproducer leaves the vote and the stake counted and every total a recount of the stakes |
| `VotingEffects.VoteExactly` | libs/eosio.system/src/voting.cpp:307-590 | A vote goes through if and only if it names no proxy, the voter has a row, and it is for at most thirty registered and active producers in increasing order; it replaces that voter's vote with all of the stake, and no other row or standing changes |
| `VotingEffects.RestakeExactly` | libs/eosio.system/src/delegate_bandwidth.cpp:348-372 | A new stake always goes through and keeps the vote, also for producers no longer active |
| `VotingEffects.RegisterExactly` | libs/eosio.system/src/voting.cpp:32-107 | Registering makes a producer active and keeps its votes |
| `VotingEffects.UnregisterExactly` | libs/eosio.system/src/voting.cpp:127-135 | Unregistering makes a registered producer inactive and keeps its votes |
| `Voting.RestakeAgrees` | libs/eosio.system/src/delegate_bandwidth.cpp:348-372 | A new stake is counted at once for a voter who votes, the vote stays, and every total is a recount of the stakes |
| `Voting.ProxyVoteRefused` | libs/eosio.system/src/voting.cpp:540-543 | Voting through a proxy is always refused |
| `Voting.RegisterProxyAgrees` | libs/eosio.system/src/voting.cpp:593-614 | regproxy succeeds if and only if it registers a non-proxy without a voter row |
| `Voting.StepAgrees` | libs/eosio.system/src/voting.cpp:307-614 | Every voting action keeps the totals a recount of the current stakes and never meets a broken row |
| `Voting.RunAgrees` | libs/eosio.system/src/voting.cpp:307-614 | Every run keeps the totals a recount of the current stakes |
| `VotingContract.Contract.CheckSorted` | libs/eosio.system/src/voting.cpp:368-371 | True exactly for strictly increasing votes |
| `VotingContract.Contract.TakeBackVotes` | libs/eosio.system/src/voting.cpp:531-536 | The old votes' entries of producer_deltas |
| `VotingContract.Contract.AddVotes` | libs/eosio.system/src/voting.cpp:553-560 | The new votes' entries merged into them |
| `VotingContract.Contract.ApplyDeltas` | libs/eosio.system/src/voting.cpp:563-582 | Fails exactly when a new vote is for an unknown or inactive producer; otherwise votes and total weight move by the deltas |
| `VotingContract.Contract.UpdateVotes` | libs/eosio.system/src/voting.cpp:362-590 | update_votes on the tables is the specified vote; refines Voting.UpdateVotes, outcome and whole state |
| `VoteDeltas.AgreementSorts` | libs/eosio.system/src/voting.cpp:368-371 | While the totals agree all stored votes are sorted, as update_votes needs |
| `VotingContract.Contract.Push` | libs/eosio.system/src/voting.cpp:307-614 | One action as a transaction: totals that are a recount of the current stakes go on being one, and the action takes its specified effect or is refused with nothing changed |
| `Rotation.ScheduleIsSound` | libs/eosio.system/src/system_rotation.cpp:113-191 | With more than 21 distinct candidates every schedule has exactly 21 distinct producers and is the top 21 with at most one replaced by a candidate from position 21 on; which one is said exactly by RotationHeld.RotatingCall, HoldingCall and IdleCall |
| `Rotation.SmallScheduleExactly` | libs/eosio.system/src/system_rotation.cpp:168-191 | With at most 21 candidates the schedule repeats a name if and only if a held rotation still finds both of its different names |
| `Rotation.InIndexStays` | libs/eosio.system/src/system_rotation.cpp:113-165 | sbp_in_index stays at least 21 |
| `Rotation.RotationsApart` | libs/eosio.system/src/system_rotation.cpp:21-25 | A rotation is followed by the next one no earlier than twelve hours later, whatever calls come between |
| `Rotation.RotatedIndices` | libs/eosio.system/src/system_rotation.cpp:113-165 | Over any run with more than 21 candidates both indices have moved one place for each rotation; calls that hold one leave them alone |
| `Rotation.EachOutOnce` | libs/eosio.system/src/system_rotation.cpp:113-165 | In any stretch of calls with 21 rotations and more than 21 candidates in each call, every top position goes out exactly once |
| `Rotation.EachInOnce` | libs/eosio.system/src/system_rotation.cpp:113-165 | In any stretch of calls with n-21 rotations and n candidates in each call, every standby position comes in exactly once |
| `Rotation.ExchangedAt` | libs/eosio.system/src/system_rotation.cpp:120-131 | The call that rotates returns the top 21 with exactly the one exchange made |
| `RotationHeld.RotatingCall` | libs/eosio.system/src/system_rotation.cpp:113-165 | The call that rotates advances both indices by one place, makes exactly that exchange and sets the next rotation 86400 slots ahead; with at most 21 candidates it schedules them all |
| `RotationHeld.HoldingCall` | libs/eosio.system/src/system_rotation.cpp:138-184 | A call before the next rotation that finds both held names makes the same exchange, with more than 21 candidates exactly when one is at o < 21 and the other at 21 <= i < 42; otherwise it schedules the top 21 and forgets the names |
| `RotationHeld.IdleCall` | libs/eosio.system/src/system_rotation.cpp:138-191 | A call that holds no rotation, or misses one of its names, schedules the top 21 and forgets the names, with fewer than 21 candidates resetting the indices to 21 and 43 |
| `RotationHeld.HeldThroughout` | libs/eosio.system/src/system_rotation.cpp:113-191 | All calls with the same candidates before the next rotation return the schedule of the call that rotated if the standby is among the first 42, and otherwise all return the top 21 |
| `Rotation.HeldRotationRepeats` | libs/eosio.system/src/system_rotation.cpp:138-184 | The first two calls can schedule one name twice: 22 candidates, of whom one drops out while their rotation is held |
| `Rotation.Contract.FindName` | libs/eosio.system/src/system_rotation.cpp:141-149 | The first position of a name, or the end |
| `Rotation.Contract.BuildSchedule` | libs/eosio.system/src/system_rotation.cpp:168-184 | The loop substitutes the standby for the producer that is out |
| `Rotation.Contract.CheckRotationState` | libs/eosio.system/src/system_rotation.cpp:113-191 | check_rotation_state on the rotation row returns schedule and state of Rotation.Check, which RotationHeld.RotatingCall, HoldingCall and IdleCall determine case by case |
| `Rotation.Contract.constructor` | libs/eosio.system/src/eosio.system.cpp:52-54 | The initial rotation state |
| `Tedp.NeverAboveCap` | src/eosio.tedp.cpp:7-151 | Over any run of setters, delpayout and pay no payee is sent more than cap*10000*floor(elapsed/interval), and the totals due to REX are what went through distviarex plus what went to the EVM |
| `Tedp.SplitExactly` | src/eosio.tedp.cpp:113-137 | A payout splits without gain or loss, and it fails if and only if the ratio leaves REX a share of less than half a unit: one that rounds to nothing is sent all the same and refused by the transfer, a negative one traps; who gets which share is TedpEffects.SplitShares |
| `TedpEffects.SplitShares` | src/eosio.tedp.cpp:113-137 | REX gets total*(1-ratio) to the nearest unit for a ratio of 0 or more and nothing for a negative one; the EVM gets the rest |
| `TedpEffects.RatioIs` | src/eosio.tedp.cpp:170-198 | The ratio is the percentage of the EVM's tokens in those of the EVM and the lendable ones of REX together, 0 without an EVM balance and -1 without lendable tokens |
| `TedpEffects.PayRowEffect` | src/eosio.tedp.cpp:93-149 | A row k whole intervals behind sends its payee exactly k*amount*10000 and nobody else anything, for REX in the two shares, and is stamped with the current time, also when its amount is zero |
| `TedpEffects.PayEffect` | src/eosio.tedp.cpp:86-151 | pay sends every payee its amount for each whole interval since its last payout, which is now |
| `TedpEffects.SetPayoutExactly` | src/eosio.tedp.cpp:7-76 | The caps and intervals of the six setters in numbers; an existing row keeps its last payout, a new one starts now |
| `TedpEffects.CapsInUnits` | src/eosio.tedp.cpp:7-151 | Over any run the totals sent stay within each cap in token units for every whole day or half hour |
| `Tedp.PayExactly` | src/eosio.tedp.cpp:86-151 | pay goes through if and only if something is due, its tokens are there, and what is due to REX splits; otherwise nobody is paid |
| `Tedp.PayRowExactly` | src/eosio.tedp.cpp:93-149 | A row pays if and only if something is due on it, and fails if and only if that is for REX and does not split |
| `Tedp.HalfAsMuchAgainFails` | src/eosio.tedp.cpp:170-198 | At 150 percent, with twice as much in the EVM as REX has to lend, the ratio is 1 and no payout to REX goes through |
| `Tedp.EvenShareFails` | src/eosio.tedp.cpp:113-127 | At 100 percent, 30000 units in the EVM against one to lend make a payout of 10000 units fail |
| `Tedp.RatioFits` | src/eosio.tedp.cpp:170-198 | The ratio is -1 or non-negative, positive only if REX has tokens to lend, and below 1 if and only if one balance is zero or EVM units times percent stay below the whole |
| `Tedp.PayRowSound` | src/eosio.tedp.cpp:93-149 | A row that is paid keeps its payee within the cap, and of the REX payout exactly the whole has gone through distviarex or to the EVM |
| `Tedp.AllowanceGrows` | src/eosio.tedp.cpp:96-110 | What one payment adds fits into what the cap gains since the last one |
| `Tedp.Contract.PayAll` | src/eosio.tedp.cpp:86-151 | pay over all rows, refusing when nothing is due |
| `Uint128.AddWithCarry` | libs/eosio.evm/external/intx/int128.hpp:71-80 | Sum and carry are exact although each half wraps |
| `Uint128.SubWithCarry` | libs/eosio.evm/external/intx/int128.hpp:94-103 | Difference and borrow are exact although each half wraps |
| `Uint128.Less` | libs/eosio.evm/external/intx/int128.hpp:185-191 | The three-part comparison is the order of the values |
| `Uint128.Umul` | libs/eosio.evm/external/intx/int128.hpp:282-300 | The portable product from 32-bit halves is exact; no intermediate word overflows |
| `Reciprocal.Reciprocal2by1Correct` | libs/eosio.evm/external/intx/int128.hpp:492-521 | For every normalized d the four wrapped approximation steps give floor((2^128-1)/d) - 2^64 |
| `Reciprocal.Error0` | libs/eosio.evm/external/intx/int128.hpp:467-485 | Error bound of the table value, for all 256 entries |
| `Reciprocal.Error1` | libs/eosio.evm/external/intx/int128.hpp:500-501 | Error bound after the first Newton step |
| `Reciprocal.Error2` | libs/eosio.evm/external/intx/int128.hpp:503-503 | Error bound after the second step, against the full divisor |
| `Reciprocal.Error3` | libs/eosio.evm/external/intx/int128.hpp:505-510 | After the third step the error is positive and at most 2d |
| `Reciprocal.CorrectExact` | libs/eosio.evm/external/intx/int128.hpp:512-520 | The last step adds one exactly when needed |
| `WordDivision.Reciprocal3by2` | libs/eosio.evm/external/intx/int128.hpp:523-549 | reciprocal_3by2 returns floor((2^192-1)/d) - 2^64 for every normalized two-word d |
| `WordDivision.DropLow` | libs/eosio.evm/external/intx/int128.hpp:526-537 | The first correction takes off at most two |
| `WordDivision.Udivrem2by1` | libs/eosio.evm/external/intx/int128.hpp:551-573 | With the reciprocal the result is the exact quotient and remainder |
| `WordDivision.CandidateBounds2by1` | libs/eosio.evm/external/intx/int128.hpp:553-570 | The candidate misses by at most one either way, so the two conditional corrections suffice |
| `WordDivision.Udivrem3by2` | libs/eosio.evm/external/intx/int128.hpp:575-603 | With the reciprocal the result is the exact quotient and two-word remainder |
| `WordDivision.CandidateBounds3by2` | libs/eosio.evm/external/intx/int128.hpp:578-600 | The candidate misses by at most one either way, also for divisors close to 2^128 |
| `KnuthDivision.UdivremBy1` | libs/eosio.evm/external/intx/base.hpp:19-34 | In place: the array becomes the quotient by one word and the remainder is returned |
| `KnuthDivision.UdivremBy2` | libs/eosio.evm/external/intx/base.hpp:42-57 | In place: the array becomes the quotient by two words and the remainder is returned |
| `KnuthDivision.EstimateDigit` | libs/eosio.evm/external/intx/base.hpp:65-99 | The adjusted estimate is never too small, and exact on three words or already lowered |
| `KnuthDivision.DigitBounds` | libs/eosio.evm/external/intx/base.hpp:65-99 | The adjusted estimate is the true digit or one more |
| `KnuthDivision.SubtractWord` | libs/eosio.evm/external/intx/base.hpp:105-108 | One word of multiply-and-subtract is exact and the borrow never exceeds the digit |
| `KnuthDivision.MultiplySubtract` | libs/eosio.evm/external/intx/base.hpp:101-109 | The loop subtracts digit times divisor with an exact borrow |
| `KnuthDivision.AddBack` | libs/eosio.evm/external/intx/base.hpp:116-122 | The loop adds the divisor back with an exact carry |
| `KnuthDivision.FinishExact` | libs/eosio.evm/external/intx/base.hpp:111-112 | Without a final borrow the digit was exact and the top word is cleared |
| `KnuthDivision.FinishAddBack` | libs/eosio.evm/external/intx/base.hpp:112-124 | With a final borrow one add-back suffices and cancels it |
| `KnuthDivision.DivideDigit` | libs/eosio.evm/external/intx/base.hpp:63-127 | One pass of the outer loop yields the exact quotient digit |
| `KnuthDivision.UdivremKnuth` | libs/eosio.evm/external/intx/base.hpp:59-130 | Algorithm D in place: u = q*v + r with r < v for any number of words |
| `Normalization.Clz` | libs/eosio.evm/external/intx/int128.hpp:399-413 | The shift that puts the top bit of a non-zero word in place |
| `Normalization.ClzUnique` | libs/eosio.evm/external/intx/int128.hpp:399-413 | Only one shift does |
| `Normalization.ClzGeneric` | libs/eosio.evm/external/intx/int128.hpp:399-413 | The halving loop counts the leading zero bits, 64 for zero |
| `Normalization.CountWords` | libs/eosio.evm/external/intx/div.hpp:37-43 | The number of significant words |
| `Normalization.ShiftLeftInto` | libs/eosio.evm/external/intx/div.hpp:46-56 | The word loop writes exactly the bits of the shifted vector |
| `Normalization.Normalize` | libs/eosio.evm/external/intx/div.hpp:24-65 | Both operands are scaled by the same power of two and the divisor's top bit is set |
| `IntxDivision.ShiftRemainder` | libs/eosio.evm/external/intx/base.hpp:165-166 | The loop shifts the remainder back exactly |
| `IntxDivision.DivideByOne` | libs/eosio.evm/external/intx/base.hpp:140-145 | The one-word path |
| `IntxDivision.DivideByTwo` | libs/eosio.evm/external/intx/base.hpp:147-152 | The two-word path |
| `IntxDivision.DivideByMany` | libs/eosio.evm/external/intx/base.hpp:154-168 | The Knuth path |
| `IntxDivision.Udivrem` | libs/eosio.evm/external/intx/base.hpp:133-169 | For every width and every non-zero divisor the results are the quotient and the remainder |
| `IntxWide.AddWithCarry` | libs/eosio.evm/external/intx/intx.hpp:409-417 | The recursive sum and carry are exact at every width |
| `IntxWide.Umul` | libs/eosio.evm/external/intx/intx.hpp:485-499 | The recursive product is exact at every width; no addition on the way overflows |
| `IntxWide.ToWords` | libs/eosio.evm/external/intx/intx.hpp:360-368 | The word view has the same value |
| `IntxWide.FromWords` | libs/eosio.evm/external/intx/intx.hpp:360-368 | And back |
| `IntxWide.Modulo` | libs/eosio.evm/external/intx/intx.hpp:693-697 | The remainder of two values of any width |
| `IntxWide.Addmod` | libs/eosio.evm/external/intx/intx.hpp:870-874 | (x + y) mod m for 256-bit operands, the carry kept |
| `IntxWide.Mulmod` | libs/eosio.evm/external/intx/intx.hpp:876-879 | (x * y) mod m through the full product |
| `MiniGmpGcd.MakeOdd` | libs/eosio.evm/external/mini-gmp/mini-gmp.c:2684-2694 | Takes out all factors of two and counts them |
| `MiniGmpGcd.BinaryLoop` | libs/eosio.evm/external/mini-gmp/mini-gmp.c:2815-2887 | The subtract-and-shift loop keeps the Bezout identities scaled by 2^power and ends with exact quotients of both operands |
| `MiniGmpGcd.CorrectionMakesEven` | libs/eosio.evm/external/mini-gmp/mini-gmp.c:2903-2914 | When a cofactor is odd the correction makes both even: the assert holds |
| `MiniGmpGcd.HalvingStep` | libs/eosio.evm/external/mini-gmp/mini-gmp.c:2903-2914 | Each halving step keeps the identity with one power of two less |
| `MiniGmpGcd.RemovePower` | libs/eosio.evm/external/mini-gmp/mini-gmp.c:2903-2914 | The halving loop ends with the unscaled identity |
| `MiniGmpGcd.SmallerCofactor` | libs/eosio.evm/external/mini-gmp/mini-gmp.c:2916-2922 | Choosing the smaller cofactor keeps the identity and halves the bound |
| `MiniGmpGcd.SignedBezout` | libs/eosio.evm/external/mini-gmp/mini-gmp.c:2923-2926 | The cofactors of the magnitudes carry over to signed operands |
| `MiniGmpGcd.ExtendedOrdered` | libs/eosio.evm/external/mini-gmp/mini-gmp.c:2815-2922 | The general case for operands in order |
| `MiniGmpGcd.GcdExt` | libs/eosio.evm/external/mini-gmp/mini-gmp.c:2759-2940 | For all signs: g is the greatest common divisor and s*u + t*v = g. Unless u without its factors of two has fewer limbs than v without its own, |s| <= |v|/2g with equality only for |v| = 2g, and |s| < |u|/2g holds if and only if some cofactor x of u (one with v dividing x*u - g) has |x| < |u|/2g, as it does whenever |v| <= |u|; otherwise the same for t with u and v exchanged |
| `MiniGmpGcd.CofactorIsSmall` | libs/eosio.evm/external/mini-gmp/mini-gmp.c:2916-2922 | A cofactor of at most half the other quotient keeps the strict bound of the comment if and only if any cofactor does |
| `MiniGmpGcd.MinimalCofactor` | libs/eosio.evm/external/mini-gmp/mini-gmp.c:2916-2922 | A cofactor of at most half the other quotient is the smallest of all |
| `MiniGmpGcd.NoSmallerCofactor` | libs/eosio.evm/external/mini-gmp/mini-gmp.c:2916-2916 | With a = |u|/g and b = |v|/g no cofactor of u at all is below |u|/2g once 2b > a*a - a + 2 |
| `MiniGmpGcd.LimitIsSharp` | libs/eosio.evm/external/mini-gmp/mini-gmp.c:2916-2916 | For every odd a the largest b within that limit has a cofactor below a/2 |
| `MiniGmpGcd.EitherBetween` | libs/eosio.evm/external/mini-gmp/mini-gmp.c:2916-2916 | Within the limit and with u below v it depends on the pair: 5 has a cofactor for 9 below 5/2 and none for 7 |
| `MiniGmpGcd.Gcd11` | libs/eosio.evm/external/mini-gmp/mini-gmp.c:2623-2664 | The single-limb binary gcd is the greatest common divisor |
| `MiniGmpGcd.OddGcd` | libs/eosio.evm/external/mini-gmp/mini-gmp.c:2643-2663 | Its subtract-and-halve loop |
| `MiniGmpGcd.OddPartsGcd` | libs/eosio.evm/external/mini-gmp/mini-gmp.c:2722-2753 | The main loop of mpz_gcd with its single-limb shortcut |
| `MiniGmpGcd.MpzGcd` | libs/eosio.evm/external/mini-gmp/mini-gmp.c:2697-2757 | mpz_gcd is the greatest common divisor for all signs |
| `MiniGmpRoot.MeanInequality` | libs/eosio.evm/external/mini-gmp/mini-gmp.c:3198-3205 | z*a*u^(z-1) <= a^z + (z-1)*u^z over the naturals |
| `MiniGmpRoot.NewtonUpper` | libs/eosio.evm/external/mini-gmp/mini-gmp.c:3198-3205 | A Newton step never falls below the root |
| `MiniGmpRoot.NewtonStop` | libs/eosio.evm/external/mini-gmp/mini-gmp.c:3198-3205 | An iterate that does not decrease is at most the root |
| `MiniGmpRoot.StartAbove` | libs/eosio.evm/external/mini-gmp/mini-gmp.c:3182-3182 | The starting power of two is above the root |
| `MiniGmpRoot.SquareLoop` | libs/eosio.evm/external/mini-gmp/mini-gmp.c:3184-3190 | The simplified loop for z = 2 strictly decreases to the square root |
| `MiniGmpRoot.NewtonLoop` | libs/eosio.evm/external/mini-gmp/mini-gmp.c:3191-3208 | The general loop, on signed iterates, strictly decreases to the root |
| `MiniGmpRoot.RootRem` | libs/eosio.evm/external/mini-gmp/mini-gmp.c:3160-3218 | The root, with the sign of y, satisfies |x|^z <= |y| < (|x|+1)^z, r = y - x^z; it dies exactly for z = 0 and even roots of negative numbers |
| `NumberTheory.CoprimeIsGcdOne` | libs/eosio.evm/external/boost/rational.hpp:876-882 | A combination equal to one is a greatest common divisor of one: the class invariant is gcd(num, den) = 1 |
| `RationalNumber.SumNormal` | libs/eosio.evm/external/boost/rational.hpp:516-549 | Two partial gcds leave the sum in lowest terms without a full final gcd |
| `RationalNumber.SumValue` | libs/eosio.evm/external/boost/rational.hpp:516-549 | And it is the exact sum |
| `RationalNumber.ProductNormal` | libs/eosio.evm/external/boost/rational.hpp:571-583 | Cross-cancelling before multiplying leaves the product in lowest terms |
| `RationalNumber.ProductValue` | libs/eosio.evm/external/boost/rational.hpp:571-583 | And it is the exact product |
| `RationalNumber.EqualExactly` | libs/eosio.evm/external/boost/rational.hpp:869-874 | Comparing parts is comparing values, for fractions in lowest terms |
| `RationalNumber.ExpansionEnds` | libs/eosio.evm/external/boost/rational.hpp:843-865 | When an expansion ends the two remainders decide as cross-multiplication does |
| `RationalNumber.Reciprocate` | libs/eosio.evm/external/boost/rational.hpp:837-840 | Equal integer parts leave the reversed comparison of the reciprocals |
| `RationalNumber.QuotientsDecide` | libs/eosio.evm/external/boost/rational.hpp:820-826 | Different integer parts decide |
| `RationalNumber.Rational.Normalize` | libs/eosio.evm/external/boost/rational.hpp:884-915 | Brings any fraction with a non-zero denominator into lowest terms with the same value, and fails exactly for a zero one |
| `RationalNumber.Rational.AddAssign` | libs/eosio.evm/external/boost/rational.hpp:516-549 | += keeps lowest terms and is exact |
| `RationalNumber.Rational.SubtractAssign` | libs/eosio.evm/external/boost/rational.hpp:551-568 | -= keeps lowest terms and is exact |
| `RationalNumber.Rational.MultiplyAssign` | libs/eosio.evm/external/boost/rational.hpp:570-583 | *= keeps lowest terms and is exact |
| `RationalNumber.Rational.DivideAssign` | libs/eosio.evm/external/boost/rational.hpp:585-612 | /= keeps lowest terms and is exact, and fails exactly for a zero divisor |
| `RationalNumber.Rational.Less` | libs/eosio.evm/external/boost/rational.hpp:783-866 | The continued-fraction loop terminates and equals cross-multiplied comparison, negative numerators included |
| `Rlp.RoundTrip` | libs/eosio.evm/external/rlp/rlp.hpp:161-447 | read applied to write(v) and any suffix succeeds, returns v and consumes exactly write(v) |
| `Rlp.Canonical` | libs/eosio.evm/external/rlp/rlp.hpp:281-447 | Every successful read is reproduced by write, byte for byte, unless a list length was narrowed; then write is shorter |
| `Rlp.CanonicalExactly` | libs/eosio.evm/external/rlp/rlp.hpp:281-447 | After a successful read write gives back the bytes consumed if and only if a parser with a 64-bit size_t accepts the same input, and that parser then reads the same |
| `Rlp.WideParse` | libs/eosio.evm/external/rlp/rlp.hpp:400-440 | Seen in 64 bits an accepted input reads the same, unless a list length was narrowed; then it is refused |
| `Rlp.NeverNarrowed` | libs/eosio.evm/external/rlp/rlp.hpp:420-425 | With a 64-bit size_t nothing is narrowed, so only canonical encodings are accepted |
| `Rlp.NarrowedExample` | libs/eosio.evm/external/rlp/rlp.hpp:420-425 | With a 32-bit size_t a list header claiming 2^32 + 56 bytes is accepted for a 56-byte payload |
| `Rlp.WritePrefixFree` | libs/eosio.evm/external/rlp/rlp.hpp:161-233 | Encodings that start the same input are of the same value |
| `RlpFormat.BufferBytes` | libs/eosio.evm/external/rlp/rlp.hpp:182-192 | The bytes of a string: itself for one byte below 128, else behind 128 + length, or behind 183 + k and the k bytes of a length of 56 or more |
| `RlpFormat.ListBytes` | libs/eosio.evm/external/rlp/rlp.hpp:194-201 | The bytes of a list: its items' behind 192 + length, or behind 247 + k and the k bytes of the length |
| `RlpFormat.BigEndian` | libs/eosio.evm/external/rlp/rlp.hpp:172-180 | Length fields are read with the highest power of 256 first |
| `RlpFormat.Truncated` | libs/eosio.evm/external/rlp/rlp.hpp:281-447 | Every proper start of an encoding is refused, and wanted asks for more than there is and no more than the whole |
| `Rlp.DecodeEncode` | libs/eosio.evm/external/rlp/rlp.hpp:172-214 | toInteger undoes encodeBinary |
| `Rlp.EncodeDecode` | libs/eosio.evm/external/rlp/rlp.hpp:172-214 | encodeBinary undoes toInteger on bytes without a leading zero |
| `Rlp.CanonicalLength` | libs/eosio.evm/external/rlp/rlp.hpp:216-233 | An accepted length field is the one encodeLength writes |
| `Rlp.RLPValue.Clear` | libs/eosio.evm/external/rlp/rlp.hpp:33 | clear empties the object |
| `Rlp.RLPValue.ReadArray` | libs/eosio.evm/external/rlp/rlp.hpp:235-279 | readArray fills the children or reports what is missing |
| `Rlp.RLPValue.ReadChildren` | libs/eosio.evm/external/rlp/rlp.hpp:256-278 | Its loop reads children until the payload is used up exactly |
| `Rlp.RLPValue.Read` | libs/eosio.evm/external/rlp/rlp.hpp:281-447 | read succeeds exactly on the specified inputs, with value, consumed and wanted as specified, and clears the object on failure |
| `Rlp.RLPValue.ReadShortBuffer` | libs/eosio.evm/external/rlp/rlp.hpp:318-341 | A short buffer, refused when a single byte should have stood for itself |
| `Rlp.RLPValue.ReadLongBuffer` | libs/eosio.evm/external/rlp/rlp.hpp:344-379 | A long buffer, refused with a leading zero or a length below 56 |
| `Rlp.RLPValue.ReadLongArray` | libs/eosio.evm/external/rlp/rlp.hpp:400-440 | A long list, its length narrowed to size_t before the check |
| `Rlp.RLPValue.WriteBuffer` | libs/eosio.evm/external/rlp/rlp.hpp:182-192 | writeBuffer prints what read reads back |
| `Rlp.RLPValue.WriteArray` | libs/eosio.evm/external/rlp/rlp.hpp:194-201 | writeArray concatenates the children behind their length |
| `Rlp.RLPValue.WriteValue` | libs/eosio.evm/external/rlp/rlp.hpp:161-170 | write dispatches on the type |

## Left out

- IEEE rounding: Bancor conversions are exact floors, vote weights, producer votes and payout ratios exact reals, and the weight curve any non-negative function of the number of votes (zero for none).
- Integer overflow in the ledgers: token amounts, REX and RAM bytes are unbounded integers; the clock stays six days clear of the end of its 32 bits.
- Authorisation, RAM billing, account existence, notifications, result actions, memo strings, the deferred refund transaction and the resource limits set at the host.
- vote_stake, stake_change and the vote updates inside REX and staking actions, check_voting_requirement and the activation check of undelegatebw: they can only make an action fail that the model lets through, so the results hold with them.
- Voter.staked against delegations plus REX: unstaketorex passes no stake change, so it is not an invariant; staked is an input of the vote model.
- The REX return pool inside the REX runs: Telos puts fees straight into the pool and no live caller fills the return pool, so update_rex_pool does nothing there and is modelled on its own in RexReturns, for clocks at least 30 days after the epoch.
- eosio.rex and eosio.stake pushing deposits, transfers, refunds or delegations of their own tokens; they are excluded from the runs.
- Purchases of RAM by bytes, and RAM fees inside the RAM model: fees reach REX as the action DistributeViaRex.
- The proxy branches of voting: they are unreachable, so the specification treats them as broken and the results exclude them.
- VotingContract.Contract.ApplyDeltas: walks producer_deltas in any order, because the order makes no difference to the sums.
- VotingContract.Contract.RegProducer: leaves out keys, URLs and the kick penalty, which can only refuse a registration.
- VotingContract.Contract.UpdateVotes: does not carry out the proxy branches; that they are never reached is part of what Voting.StepAgrees proves.
- SystemContract.Contract.UpdateResourceLimits: leaves out the managed-account flags and the limits set at the host.
- SystemContract.Contract.AddToRexBalance: leaves out vote_stake and the stake change it returns.
- SystemContract.Contract.UpdateRexAccount: leaves out the claimed stake change and the vote update.
- SystemContract.Contract.FillRexOrder: leaves out vote_stake and the stake change of its outcome.
- SystemContract.Contract.UpdateRex: leaves out the recomputed vote_stake and the forced vote update.
- Producer keys, kicks, penalties, missed block counting, claimrewards_snapshot and the schedule proposal itself; candidates of a rotation are names.
- powerup, setinflation, voteupdate and limitauthchg, which are disabled.
- Rlp.RoundTrip: inputs leave nine bytes of room in size_t, without which the parser's own length arithmetic could wrap; no longer input fits an address space. The one-byte reads past an empty input are not modelled.
- mini-gmp limb buffers and allocation: numbers are integers, with the limb base a parameter where the code compares limb counts; the null result pointers of mpz_gcdext and mpz_rootrem.
- The gcd used by rational.hpp is Euclid's; the binary gcd Boost picks for built-in integers is not modelled, nor its bounded integers.
- RationalNumber.Rational.Less: on the unbounded integers; the code's own assertions den > 0 are its preconditions.
- Bitwise or of parts without common bits is their sum; shifts by less than a word are multiplications and floored divisions by a power of two.
- The native __int128 paths of intx, division of two 128-bit values by each other, exponentiation, string conversion, signed division.
- Tedp.Contract.PayAll: whether the payer has the tokens it sends, and the receivers take them, is an input.
- uECC, Keccak, the EVM processor, eosio.msig, name auctions and the rest of Boost: they would add repetitions or easy members.
