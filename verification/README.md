# CarbonLedger: verified model

CarbonLedger issues carbon credits in batches of serial numbers, trades them for
USDC and retires them against certificates. This project models three of its
Soroban contracts (credit ledger, marketplace, oracle) and the algorithms around
them in the front end, the backend and the price feed, and proves what they
keep over every run.

`dafny verify dfyconfig.toml` checks the whole project.

## How the model is built

- **Contracts.** A Soroban call is atomic: an error, a trap or a failed inner call
  leaves all storage as it was. Each entry point is a function from the storage
  before the call to a result holding the storage after it, with the guards in
  the order of the code (`CreditLedger`, `Marketplace`, `CarbonOracleContract`).
  Each contract is also a class over its storage fields, with the loops and the
  step-by-step writes of the code; every method is proved to do what its function
  says, a method that fails after its first write putting back what the host
  would roll back. `u32`, `u64` and `i128` are bounded types and every checked
  operation is written out.
- **Runs.** `LedgerInvariant` and `SerialNumbers` cover runs of the ledger,
  `WorldRuns` runs of ledger, marketplace and token together, `MarketRuns` their
  administration and closed listings, `OracleTheorems` and `OracleOutcomes` runs of the
  oracle. `LedgerOutcomes` and `MarketOutcomes` say which answer every call gets. History variables (`minted`, `issued`, `listed`, `sold`,
  `accepted`, `epoch`) record what the storage forgets. `Witnesses` holds concrete
  runs on which a promise fails.
- **Algorithms.** `Calendar`, `Stroops`, `Csv`, `LoginRateLimit`,
  `HorizonListener`, `Paging`, `PriceOracle` and `Cart` each set the code
  against an independent definition: a closed form, a reader, a whole-text split,
  a sliding window, the undivided list.

## Where the code and what is said about it differ

The model follows the code. Each difference but the last has a lemma that says
exactly when the promise holds.

- `mint_credits` does not tie the amount to the range. A mint is harmless exactly
  when it fits (`SerialNumbers.FitIsExact`); five credits on two serials do not
  (`Witnesses.FiveCreditsOnTwoSerials`).
- A reused retirement id is said to be refused (docs/carbon-credit-lifecycle.md:721);
  the code replaces the stored certificate (`LedgerTheorems.CertificateKeptExactly`,
  `Witnesses.CertificateOverwritten`).
- Only the owner is said to retire (docs/carbon-credit-lifecycle.md:710); the code asks
  for the authorisation of the address named as holder and does not compare it with
  the owner (`LedgerInvariant.RetireExact`, `Witnesses.StrangerRetires`).
- A listing is meant to be filled in parts (docs/carbon-credit-lifecycle.md:597), but
  every purchase moves the whole batch, so a second fill right after it succeeds only
  if the first buyer was the seller (`MarketInvariant.SecondFill`).
- A bulk purchase works on snapshots, so a repeated id loses count of what is sold
  (`BulkEquivalence.BulkSoundExactly`). The first delivery makes the buyer the owner
  of the batch, so only a buyer who sells the repeated listing itself gets that far
  (`SameBatchSelfPurchase`); such a purchase exists (`Witnesses.SelfPurchaseOversells`),
  and for everyone else bulk and line by line agree (`OutsiderBulk`).
- The oracle's signature is said to cover the nonce and the nonce to prevent replay
  (docs/carbon-credit-lifecycle.md:299-300). The signed payload holds no nonce
  (contracts/carbon_oracle/src/lib.rs:191-199), so an old payload and signature are
  accepted under the stored nonce (`OracleTheorems.RepresentedExactly`), and a rotation
  to the same key restarts the nonces (`ReplayAccepted`). Under the same nonce a call
  is refused until then (`ReplayRefused`). The nonce has to equal the stored one, not
  exceed it as docs/carbon-credit-lifecycle.md:366 has it.
- "5 requests per minute" holds per fixed window (`LoginRateLimit.WindowLimit`); over
  an arbitrary minute the sharp bound is 9 (`SlidingMinute`, `SlidingMinuteTight`).
- The cart adds the fee to the subtotal, the contract takes it out of the price
  (`Cart.TotalIsDebitExactly`).
- `formatStroops` and `parseStroops` are inverse on all non-negative amounts, and
  on negative ones only in part (`Stroops.RoundTrip`); a minus is read as the sign of
  the whole part alone (`MinusIsOfTheWhole`), and a second point and what follows it
  are ignored (`RestIgnored`).
- The length test on `project_id` counts characters with an iterator that contract
  strings do not have; it is read as a length check.

## Model

| member | source | states |
|---|---|---|
| CarbonCreditContract.CarbonCredit.Initialize | contracts/carbon_credit/src/lib.rs:150-161 | sets the admin once; a second call fails and changes nothing |
| CarbonCreditContract.CarbonCredit.MintCredits | contracts/carbon_credit/src/lib.rs:216-309 | registers the range, stores the batch and indexes it under its project, or fails with the error of the first failing guard and changes nothing |
| CarbonCreditContract.CarbonCredit.VerifySerialRange | contracts/carbon_credit/src/lib.rs:520-533 | the scan accepts exactly the ranges apart from every registered range |
| CarbonCreditContract.CarbonCredit.CollectSerials | contracts/carbon_credit/src/lib.rs:353-358 | the serial loop yields first..last in order, and traps exactly when last is 2^64-1 |
| CarbonCreditContract.CarbonCredit.RetireCredits | contracts/carbon_credit/src/lib.rs:311-401 | counter, status, stored certificate and returned certificate after a retirement, all unchanged on failure |
| CarbonCreditContract.CarbonCredit.TransferCredits | contracts/carbon_credit/src/lib.rs:403-443 | the whole batch changes owner, or nothing changes |
| CarbonCreditContract.CarbonCredit.GetProjectCredits | contracts/carbon_credit/src/lib.rs:463-477 | the loop returns the stored batches of the indexed ids |
| LedgerOutcomes.InitializeOutcome | contracts/carbon_credit/src/lib.rs:150-161 | which answer initialising gets, and the whole state it leaves |
| LedgerOutcomes.VintageOutcome | contracts/carbon_credit/src/lib.rs:210-254 | the vintage guard by literal numbers: 1990 to next year, years of 31 557 600 seconds cut to 32 bits, and when it traps |
| LedgerOutcomes.MintOutcome | contracts/carbon_credit/src/lib.rs:230-264 | on a sound ledger, which of the ten answers a mint gets, the overlap test read as "shares a serial with a minted batch" |
| LedgerOutcomes.MintAdds | contracts/carbon_credit/src/lib.rs:266-293 | the whole state after a mint: range, batch and place in the project index added, all else kept |
| LedgerOutcomes.ActiveExactly | contracts/carbon_credit/src/lib.rs:508-518 | what is active of a stored batch is what is not retired of it |
| LedgerOutcomes.RetireOutcome | contracts/carbon_credit/src/lib.rs:324-358 | on a sound ledger, which answer a retirement gets, by the credits left and the last serial it needs; Suspended never answers |
| LedgerOutcomes.TransferOutcome | contracts/carbon_credit/src/lib.rs:411-434 | on a sound ledger, which answer a transfer gets, by owner and credits left |
| LedgerOutcomes.OwnerExactly | contracts/carbon_credit/src/lib.rs:266-443 | after any run a batch is owned by whom the last accepted mint or transfer of it named |
| LedgerOutcomes.AdminExactly | contracts/carbon_credit/src/lib.rs:150-161 | after any run the admin is whom the one accepted initialisation named |
| LedgerInvariant.RetireExact | contracts/carbon_credit/src/lib.rs:324-351 | on a sound ledger all guards of a retirement collapse to: authorised, known batch, 0 < amount <= amount - retired, last serial below 2^64-1; the first serial is start + retired |
| LedgerInvariant.RetireRetires | contracts/carbon_credit/src/lib.rs:360-386 | effect of a retirement on every storage entry, the status as a function of the new counter |
| LedgerInvariant.TransferExact | contracts/carbon_credit/src/lib.rs:411-434 | a transfer succeeds exactly for the authorised owner and an amount not above what is unretired |
| LedgerInvariant.MintSound | contracts/carbon_credit/src/lib.rs:256-293 | a mint keeps counters, registry, index and certificates consistent |
| LedgerInvariant.RetireSound | contracts/carbon_credit/src/lib.rs:360-386 | a retirement keeps them consistent |
| LedgerInvariant.StepSound | contracts/carbon_credit/src/invariants.rs:3-7 | every call, successful or not, keeps them consistent |
| LedgerInvariant.RunSound | contracts/carbon_credit/src/invariants.rs:3-7 | they hold after every run: counter = certified credits <= amount, status Active/PartiallyRetired/FullyRetired exactly by the counter (Suspended never occurs), registry pairwise apart and one to one with the batches in mint order |
| SerialNumbers.BatchSerialsContiguous | contracts/carbon_credit/src/lib.rs:342-386 | the serial lists of a batch's certificates, in order, concatenate to exactly start, start+1, ..., start+retired-1 |
| SerialNumbers.RangesDisjoint | contracts/carbon_credit/src/invariants.rs:6 | ranges of two different batches share no serial |
| SerialNumbers.InOwnRangeExactly | contracts/carbon_credit/src/lib.rs:342-358 | all certified serials lie in their own batch's range if and only if no counter exceeds its range's length |
| SerialNumbers.RunSerialsUnique | contracts/carbon_credit/src/lib.rs:260-386 | in every run whose mints fit, no serial is certified twice and each lies in its own batch's range |
| SerialNumbers.UnfitMintDuplicates | contracts/carbon_credit/src/lib.rs:241-249 | an unfit mint accepted on a fresh ledger has a run, all other mints fitting, that certifies one serial twice |
| Witnesses.FiveCreditsOnTwoSerials | contracts/carbon_credit/src/lib.rs:241-249 | a mint of 5 credits on the serials 1 to 2 is accepted, and some run from it certifies a serial twice |
| SerialNumbers.FitIsExact | contracts/carbon_credit/src/lib.rs:241-249 | a mint accepted on a fresh ledger is harmless in all runs whose other mints fit if and only if amount <= serial_end - serial_start + 1 or serial_end >= 2^64-2 |
| LedgerTheorems.VerifyRangeExact | contracts/carbon_credit/src/lib.rs:520-533 | the scan accepts a non-empty range if and only if it shares no integer with any minted batch |
| LedgerTheorems.VerifyReversedExact | contracts/carbon_credit/src/lib.rs:520-533 | a reversed pair shares no integer with anything and is still refused exactly when some batch straddles it |
| LedgerTheorems.MintExact | contracts/carbon_credit/src/lib.rs:230-293 | a mint succeeds exactly under the stated guards with the overlap test read as "shares no serial", and adds one active unretired batch and nothing else |
| LedgerTheorems.ProjectCreditsExact | contracts/carbon_credit/src/lib.rs:463-477 | the query returns exactly the batches of the project, once each, in mint order |
| LedgerTheorems.Conservation | contracts/carbon_credit/src/invariants.rs:5 | credits certified over all batches never exceed credits minted |
| LedgerTheorems.StepLater | contracts/carbon_credit/src/invariants.rs:7 | one ledger call loses no certificate, lowers no counter, moves no status back and changes no batch field but status and owner |
| LedgerTheorems.CertificateKeptExactly | contracts/carbon_credit/src/lib.rs:372-386 | a stored certificate survives a retirement if and only if the retirement uses another id |
| Witnesses.CertificateOverwritten | contracts/carbon_credit/src/lib.rs:372-386 | a run of two retirements under one id, after which the stored certificate names the second serial only |
| Witnesses.StrangerRetires | contracts/carbon_credit/src/lib.rs:324-351 | a run in which a credit is retired by an account that does not own its batch |
| UsdcToken.PayConserves | contracts/carbon_marketplace/src/lib.rs:339-344 | a token transfer moves the amount and keeps the supply, also from an account to itself |
| CarbonMarketplaceContract.CarbonMarketplace.Initialize | contracts/carbon_marketplace/src/lib.rs:124-137 | sets admin and treasury once and clears the listing index |
| CarbonMarketplaceContract.CarbonMarketplace.UpdateTreasury | contracts/carbon_marketplace/src/lib.rs:186-194 | only the stored admin replaces the treasury; traps before initialisation |
| CarbonMarketplaceContract.CarbonMarketplace.SuspendProject | contracts/carbon_marketplace/src/lib.rs:196-208 | only the stored admin suspends a project |
| CarbonMarketplaceContract.CarbonMarketplace.ListCredits | contracts/carbon_marketplace/src/lib.rs:211-274 | stores an active listing, replacing one of the same id, and appends the id to the index |
| CarbonMarketplaceContract.CarbonMarketplace.DelistCredits | contracts/carbon_marketplace/src/lib.rs:276-297 | only the seller delists; nothing else changes |
| CarbonMarketplaceContract.CarbonMarketplace.PurchaseCredits | contracts/carbon_marketplace/src/lib.rs:299-368 | listing, both payments and the batch owner change together or, on any failure in any of the three contracts, not at all |
| CarbonMarketplaceContract.CarbonMarketplace.ValidateAll | contracts/carbon_marketplace/src/lib.rs:383-405 | phase 1: every line checked against the storage before any update |
| CarbonMarketplaceContract.CarbonMarketplace.SettleAll | contracts/carbon_marketplace/src/lib.rs:407-425 | phase 2: snapshots settled and written back in order |
| CarbonMarketplaceContract.CarbonMarketplace.DeliverAll | contracts/carbon_marketplace/src/lib.rs:433-455 | phase 3 without payments: batches handed over in order, all or none |
| CarbonMarketplaceContract.CarbonMarketplace.BulkPurchaseCredits | contracts/carbon_marketplace/src/lib.rs:370-471 | the three phases together, rolled back on any failure; at most ten lines |
| CarbonMarketplaceContract.CarbonMarketplace.FilterListings | contracts/carbon_marketplace/src/lib.rs:508-524 | the loop returns the indexed stored listings that satisfy the predicate |
| MarketOutcomes.InitializeOutcome | contracts/carbon_marketplace/src/lib.rs:124-137 | which answer initialising gets, and the whole state it leaves |
| MarketOutcomes.TreasuryOutcome | contracts/carbon_marketplace/src/lib.rs:186-194 | only the stored admin is obeyed; exactly the treasury changes |
| MarketOutcomes.SuspendOutcome | contracts/carbon_marketplace/src/lib.rs:196-208 | only the stored admin is obeyed; exactly that project becomes suspended |
| MarketOutcomes.ListOutcome | contracts/carbon_marketplace/src/lib.rs:225-261 | which answer listing gets, and that an accepted one puts its id at the end of the index |
| MarketOutcomes.DelistOutcome | contracts/carbon_marketplace/src/lib.rs:276-297 | which answer delisting gets; an accepted one sets that listing's status to Delisted and keeps every other field and listing |
| MarketOutcomes.LineOutcome | contracts/carbon_marketplace/src/lib.rs:307-321 | on sound listings, which answer a line's guards give; a sold-out listing is one with nothing left |
| MarketOutcomes.SettleOutcome | contracts/carbon_marketplace/src/lib.rs:323-334 | the arithmetic of a line fails exactly when the price exceeds 2^127-1, and otherwise takes the amount off the listing |
| MarketOutcomes.PurchaseOutcome | contracts/carbon_marketplace/src/lib.rs:307-357 | a purchase answers with its line's error, then Arithmetic for its price; all else that fails traps |
| MarketOutcomes.PurchaseLeaves | contracts/carbon_marketplace/src/lib.rs:323-357 | the whole state after a purchase: listing, history, batch owner, and every balance with the fee written as cost / 100 |
| MarketOutcomes.PurchaseIsLine | contracts/carbon_marketplace/src/lib.rs:299-368 | a purchase succeeds exactly when its line without money and both payments do, with the same listings and owners |
| MarketRuns.AdminExactly | contracts/carbon_marketplace/src/lib.rs:124-137 | after any run of all contracts the admin is whom the one accepted initialisation named |
| MarketRuns.TreasuryExactly | contracts/carbon_marketplace/src/lib.rs:124-194 | after any run the treasury is the one that the last accepted call about it named |
| MarketRuns.SuspendedExactly | contracts/carbon_marketplace/src/lib.rs:196-208 | after any run a project is suspended if and only if some accepted call suspended it |
| MarketRuns.ClosedUntilListed | contracts/carbon_marketplace/src/lib.rs:276-335 | a delisted or sold-out listing stays closed over any run until its id is listed again |
| MarketRuns.DelistedUntilListed | contracts/carbon_marketplace/src/lib.rs:276-321 | after an accepted delisting no purchase and no bulk line on the id is accepted until it is listed again |
| MarketInvariant.ListExact | contracts/carbon_marketplace/src/lib.rs:225-260 | a listing is accepted exactly under its four conditions, starts active with the full amount, and touches no other listing |
| MarketInvariant.LineExact | contracts/carbon_marketplace/src/lib.rs:307-331 | on sound listings the guards and checked arithmetic of a line collapse to: known, not delisted, not suspended, 0 < amount <= available, price*amount within i128 |
| MarketInvariant.StoreSound | contracts/carbon_marketplace/src/lib.rs:327-335 | a settled line moves amount from available to sold, is Sold exactly when it took all, and touches no other listing |
| MarketInvariant.FeeBounds | contracts/carbon_marketplace/src/lib.rs:323-325 | fee F of a cost C: 100 F <= C <= 100 F + 99 |
| MarketInvariant.PayLineExact | contracts/carbon_marketplace/src/lib.rs:339-344 | each account's change in a paid line, also when buyer, seller and treasury coincide; the supply is unchanged |
| MarketInvariant.PayLineSucceedsExactly | contracts/carbon_marketplace/src/lib.rs:339-344 | both payments of a line go through if and only if the buyer has authorised, holds the price (less the fee if it is the seller), and neither receiver leaves i128 |
| MarketInvariant.PurchaseExact | contracts/carbon_marketplace/src/lib.rs:299-357 | a purchase succeeds exactly when the contract is initialised, the line is buyable, the balances cover it and the seller owns enough unretired credits |
| MarketInvariant.PurchaseEffect | contracts/carbon_marketplace/src/lib.rs:323-357 | a successful purchase hands the batch to the buyer, debits the buyer exactly price*amount split between seller and treasury, and keeps the listing balanced |
| MarketInvariant.SecondFill | contracts/carbon_marketplace/src/lib.rs:346-357 | right after a purchase another line of the same seller and batch can be bought only if the buyer was the seller; then its delivery is guarded as before |
| MarketOutcomes.BulkExactly | contracts/carbon_marketplace/src/lib.rs:370-455 | a bulk purchase succeeds exactly for an authorised buyer, an initialised contract, two lists of one length up to 10, and lines that can each be bought from the initial listings and delivered once those before are |
| MarketOutcomes.BulkLeaves | contracts/carbon_marketplace/src/lib.rs:407-455 | what an accepted bulk purchase leaves, repeated ids included: a listing shows its last line only, the history all of them, and every batch delivered is the buyer's |
| MarketOutcomes.BulkOutcome | contracts/carbon_marketplace/src/lib.rs:378-405 | a refused bulk purchase answers InvalidSerialRange for its lengths, else the error of its first bad line, else Arithmetic for a price; all else that fails traps |
| BulkEquivalence.PhasesAreSnapshots | contracts/carbon_marketplace/src/lib.rs:383-455 | the three phases equal line-by-line processing against the initial listings, on all inputs |
| BulkEquivalence.SnapshotsAreSequence | contracts/carbon_marketplace/src/lib.rs:299-368 | for pairwise distinct ids that equals buying line by line, for any number of lines |
| BulkEquivalence.SequenceWithinSnapshots | contracts/carbon_marketplace/src/lib.rs:383-455 | for any ids, whatever line-by-line buying accepts, the bulk phases accept, with the same deliveries |
| BulkEquivalence.RepeatedIdOversold | contracts/carbon_marketplace/src/lib.rs:407-425 | for a repeated id the bulk phases leave more available than was sold |
| BulkEquivalence.BulkVersusSequence | contracts/carbon_marketplace/src/lib.rs:370-471 | a refused bulk purchase is refused line by line too; an accepted one equals the line-by-line purchases if and only if no id repeats |
| BulkEquivalence.SameBatchSelfPurchase | contracts/carbon_marketplace/src/lib.rs:433-455 | two lines of an accepted bulk purchase are on one batch only if the buyer is the seller of the later one |
| BulkEquivalence.OutsiderBulk | contracts/carbon_marketplace/src/lib.rs:370-471 | for a buyer who sells none of the listed ids, a bulk purchase and the same lines one by one are accepted together, with one outcome |
| BulkEquivalence.BulkSoundExactly | contracts/carbon_marketplace/src/lib.rs:407-425 | an accepted bulk purchase keeps listed = available + sold if and only if no id repeats |
| Witnesses.SelfPurchaseOversells | contracts/carbon_marketplace/src/lib.rs:383-425 | a run after which one bulk purchase of the buyer's own listing, twice 7 of 10, is accepted, sells 14 and leaves 3; line by line it is refused |
| CarbonMarketplaceContract.CarbonMarketplace.GetActiveListings | contracts/carbon_marketplace/src/lib.rs:477-481 | the query of listings that are Active or PartiallyFilled |
| MarketQueries.ActiveExactly | contracts/carbon_marketplace/src/lib.rs:477-481 | on sound listings with a complete index it returns exactly the listings that are not delisted and have credits left |
| MarketQueries.FilteredExact | contracts/carbon_marketplace/src/lib.rs:508-524 | queries return the matching stored listings in index order, all of them when the index is complete |
| MarketQueries.FilteredOnceExactly | contracts/carbon_marketplace/src/lib.rs:251-260 | no listing is returned twice if and only if no matching id was indexed twice |
| MarketQueries.InitializeIndexExactly | contracts/carbon_marketplace/src/lib.rs:132-133 | initialising keeps the index complete if and only if nothing had been listed before |
| MarketQueries.RunIndex | contracts/carbon_marketplace/src/lib.rs:132-260 | after any run of all contracts the stored ids are those ever listed, and the index holds those listed after the first initialisation, or ever if there was none |
| MarketQueries.RunIndexExactly | contracts/carbon_marketplace/src/lib.rs:132-260 | the index is complete after a run if and only if everything listed before the first initialisation was listed again after it |
| WorldRuns.RunLedgerSound | contracts/carbon_marketplace/src/lib.rs:346-357 | runs of all contracts together, bulk purchases of any ids included, keep the ledger consistent |
| WorldRuns.RunSerialsUnique | contracts/carbon_credit/src/lib.rs:260-386 | serial uniqueness and own-range hold in every run of all contracts whose mints fit |
| WorldRuns.RunLater | contracts/carbon_credit/src/invariants.rs:7 | over any run of all contracts no certificate is lost, no counter falls, no status moves back |
| WorldRuns.RunMarketExactly | contracts/carbon_marketplace/src/lib.rs:238-425 | throughout a run each listing has listed = available + sold since and a status that says which part is empty, unless delisted, if and only if no accepted bulk purchase repeats an id of its own buyer's listing |
| WorldRuns.RunMarketSound | contracts/carbon_marketplace/src/lib.rs:238-425 | so in every run without such a bulk call, whatever other ids are repeated |
| WorldRuns.RunMoney | contracts/carbon_marketplace/src/lib.rs:323-344 | over every run of single purchases the supply is constant, costs are positive and within i128, every account holds its initial balance plus the net of the completed sales, and n fees F satisfy 100 F <= costs <= 100 F + 99 n |
| WorldRuns.TreasuryIncome | contracts/carbon_marketplace/src/lib.rs:323-344 | an account that is the only treasury of a run of single purchases and neither buys nor sells holds afterwards its initial balance plus all the fees |
| WorldRuns.SuspendedForGood | contracts/carbon_marketplace/src/lib.rs:196-208 | after a suspension no run of further calls lets the project be listed, bought or bought in bulk again |
| Calendar.YearLength | contracts/carbon_oracle/src/lib.rs:392-394 | the closed-form day count grows by 366 exactly in leap years |
| Calendar.YearUnique | contracts/carbon_oracle/src/lib.rs:386-402 | a day lies in one year only |
| Calendar.GetCurrentYear | contracts/carbon_oracle/src/lib.rs:386-402 | the loop terminates with the unique year y with D(y) <= timestamp/86400 < D(y+1), and traps exactly when the year leaves 32-bit integers |
| Calendar.ApproximateAtMostOneAhead | contracts/carbon_credit/src/lib.rs:210-214 | the 365.25-day year is never more than one ahead of the Gregorian year |
| Calendar.ApproximateAtMostOneBehind | contracts/carbon_credit/src/lib.rs:210-214 | it trails by at most one before the year 50604 |
| Calendar.ApproximateTwoBehind | contracts/carbon_credit/src/lib.rs:210-214 | the year 50604 begins two ahead of it, so the bound is sharp |
| CarbonOracleContract.CarbonOracle.VerifyOracleSignature | contracts/carbon_oracle/src/lib.rs:363-384 | accepts only the stored nonce from the stored oracle, under a signature of the payload alone, and advances the nonce by one |
| CarbonOracleContract.CarbonOracle.SubmitMonitoringData | contracts/carbon_oracle/src/lib.rs:176-233 | stores the record and the latest time; a refused call also takes back the nonce |
| CarbonOracleContract.CarbonOracle.UpdateCreditPrice | contracts/carbon_oracle/src/lib.rs:235-273 | stores a positive price of an allowed vintage under the Gregorian year loop, or changes nothing |
| OracleOutcomes.InitializeOutcome | contracts/carbon_oracle/src/lib.rs:96-107 | which answer initialising gets, and the whole state it leaves |
| OracleOutcomes.RotateOutcome | contracts/carbon_oracle/src/lib.rs:156-174 | only the admin rotates; signer and key are replaced, the nonce restarts, records, prices and flags stay |
| OracleOutcomes.AcceptOutcome | contracts/carbon_oracle/src/lib.rs:176-384 | which answer a signed call gets: signer, nonce, key, signature, then what its payload is refused for |
| OracleOutcomes.AcceptExactly | contracts/carbon_oracle/src/lib.rs:176-384 | a signed call is accepted if and only if the signer is authorised and is the stored oracle, the nonce is the stored one and below 2^64-1, the signature verifies under the stored key, and the payload is allowed |
| OracleOutcomes.AcceptLeaves | contracts/carbon_oracle/src/lib.rs:204-318 | the whole state after each kind of accepted signed call |
| OracleOutcomes.SignaturesVerified | contracts/carbon_oracle/src/lib.rs:363-384 | over any run, every accepted signed call verified under the key and came from the oracle stored before it |
| OracleOutcomes.KeysExactly | contracts/carbon_oracle/src/lib.rs:156-174 | after any run signer and key are those the last accepted initialisation or rotation named, and the nonce counts the signed calls accepted since |
| OracleOutcomes.RecordExactly | contracts/carbon_oracle/src/lib.rs:204-219 | after any run the record of a project and period is the last accepted submission of it, field by field, and exists exactly if there was one |
| OracleOutcomes.PriceExactly | contracts/carbon_oracle/src/lib.rs:255-267 | after any run the price of a methodology and vintage is the one accepted last, and exists exactly if one was |
| OracleOutcomes.CurrentByLast | contracts/carbon_oracle/src/lib.rs:324-337 | after any run, whatever the clock did, monitoring is current if and only if the last accepted submission is at most 31 536 000 seconds old |
| OracleOutcomes.CurrentFromCalls | contracts/carbon_oracle/src/lib.rs:324-337 | with non-decreasing time, monitoring is current if and only if an accepted submission of the project was called in the last 31 536 000 seconds |
| OracleTheorems.FlaggedExactly | contracts/carbon_oracle/src/lib.rs:297-322 | after any run a project is flagged if and only if some accepted call flagged it, with the reason of the last such call: no call takes a flag back |
| CarbonOracleContract.CarbonOracle.RotateOracle | contracts/carbon_oracle/src/lib.rs:156-174 | replaces signer and key and restarts the nonce at 0 |
| CarbonOracleContract.CarbonOracle.IsMonitoringCurrent | contracts/carbon_oracle/src/lib.rs:324-337 | the saturating age of the latest time is at most 365 days |
| OracleTheorems.RunSound | contracts/carbon_oracle/src/lib.rs:204-219 | with non-decreasing time, the latest time is the maximum over accepted submissions, that record is still stored, and every stored record is an accepted one under its own project and period |
| OracleTheorems.CurrentExactly | contracts/carbon_oracle/src/lib.rs:324-337 | monitoring is current if and only if some accepted submission, equivalently some stored record, is at most 365 days old |
| OracleTheorems.NoncesInOrder | contracts/carbon_oracle/src/lib.rs:363-384 | in every run, the nonces accepted since the last rotation are 0, 1, 2, ... without repetition or gap |
| OracleTheorems.ReplayRefused | contracts/carbon_oracle/src/lib.rs:363-384 | after an accepted signed call, it and any other call with its nonce is refused at every later point before the next accepted rotation |
| OracleTheorems.RepresentedExactly | contracts/carbon_oracle/src/lib.rs:191-198 | until then its payload and signature are accepted again exactly under the nonce then stored, from the authorised signer, and for a price while its vintage is allowed |
| OracleTheorems.ReplayAccepted | contracts/carbon_oracle/src/lib.rs:156-198 | a run that stores one signed submission three times: under two nonces, and unchanged after a rotation to the same key |
| OracleTheorems.PricesPositive | contracts/carbon_oracle/src/lib.rs:255-262 | in every run, each stored benchmark price is positive and of a vintage from 1990 on |
| Stroops.FormatExactly | frontend/lib/stellar.ts:40-45 | what is printed: the units without leading zeros, then a point and the ten-millionths without trailing zeros, if there are any |
| Stroops.BigIntExactly | frontend/lib/stellar.ts:47-52 | the texts that read as big integers: digits, and digits after one sign |
| Stroops.MinusIsOfTheWhole | frontend/lib/stellar.ts:47-52 | a leading minus negates the whole part only: the fraction is added, so "-1.5" reads as -0.5 |
| Stroops.RestIgnored | frontend/lib/stellar.ts:48 | what follows a second point is ignored |
| Stroops.RoundTrip | frontend/lib/stellar.ts:40-52 | parseStroops(formatStroops(n)) = n for every n >= 0, and for a negative n exactly when its fraction is zero or has six digits |
| Stroops.FormatInjective | frontend/lib/stellar.ts:40-45 | two non-negative amounts never print alike |
| Stroops.ParseThenFormat | frontend/lib/stellar.ts:40-52 | formatting a parsed decimal drops leading zeros, cuts the fraction to seven digits and drops its trailing zeros |
| Stroops.ParseWholeThenFormat | frontend/lib/stellar.ts:40-52 | the same for a decimal without a point |
| LoginRateLimit.LoginRateLimitGuard.CanActivate | backend/src/auth/login-rate-limit.guard.ts:19-48 | counts the request in its own window and admits it while the count is at most 5 |
| LoginRateLimit.EntryExactly | backend/src/auth/login-rate-limit.guard.ts:25-31 | the stored entry counts the requests since the opener of the window and ends 60 000 ms after it, the opener found from the requests alone |
| LoginRateLimit.RefusedExactly | backend/src/auth/login-rate-limit.guard.ts:25-33 | a request is refused if and only if five earlier requests of its address lie in its window |
| LoginRateLimit.WindowSplit | backend/src/auth/login-rate-limit.guard.ts:25-33 | how the admitted requests of any minute divide at the start of the current window |
| LoginRateLimit.WindowLimit | backend/src/auth/login-rate-limit.guard.ts:25-39 | from the request that opens a window, at most 5 requests of the address pass within 60 000 ms |
| LoginRateLimit.SlidingMinute | backend/src/auth/login-rate-limit.guard.ts:10-17 | in every run with a non-decreasing clock at most 9 requests of one address pass in any closed 60 000 ms |
| LoginRateLimit.SlidingMinuteTight | backend/src/auth/login-rate-limit.guard.ts:10-17 | a run that reaches 9 |
| LoginRateLimit.OthersIrrelevant | backend/src/auth/login-rate-limit.guard.ts:15-33 | an address is counted and decided as if there were no other requests |
| Csv.FlattenItem | backend/src/export/export.service.ts:45-57 | the nested loops build the flattened record |
| Csv.FlattenCollapses | backend/src/export/export.service.ts:45-57 | the flattened record has each property once, nested ones under joined names, with the value assigned last |
| CsvContents.ExpandCons | backend/src/export/export.service.ts:45-57 | the properties an item contributes, front to back: its own, and a nested object's under names joined by "_" |
| CsvContents.HeadersExactly | backend/src/export/export.service.ts:59-60 | the columns are the names of the first item's properties, each once, in the order they first occur |
| CsvContents.CellsExactly | backend/src/export/export.service.ts:62-70 | row i, column k is the text of the value item i gave that name last, missing if it has none |
| CsvContents.LastValueAt | backend/src/export/export.service.ts:45-57 | the value given last under a name stands at the name's last place |
| CsvContents.NoLastValue | backend/src/export/export.service.ts:64 | a name an item lacks has the missing value |
| CsvContents.ItemsText | backend/src/export/export.service.ts:67 | an array's text is its items in order with "; " between them |
| CsvContents.CellForm | backend/src/export/export.service.ts:63-70 | texts and arrays are written as one quoted field, everything else as it is, nothing for missing |
| Csv.CellWrites | backend/src/export/export.service.ts:63-70 | a written cell followed by any separator reads back as its text |
| Csv.ExportReadsExactly | backend/src/export/export.service.ts:41-74 | nothing is written for no items; else reading the export gives the headers and every cell's text back if and only if the first item has a property and no header name and no unquoted cell has a comma, quote or line feed |
| Csv.BareTextExactly | backend/src/export/export.service.ts:66-69 | a text written without quotes reads back as itself if and only if it has no comma, quote or line feed |
| Text.SplitExact | backend/src/webhook/horizon.listener.ts:85 | splitting loses nothing and leaves no separator in a piece |
| Text.SplitAppend | backend/src/webhook/horizon.listener.ts:84-86 | only the last piece can change when text is appended |
| HorizonListener.HorizonListenerService.ReadStream | backend/src/webhook/horizon.listener.ts:76-93 | lines handed on are the newline-split of the whole text without its last piece, which is the buffer; payloads of data lines in order; the back-off is reset by a tracked event |
| HorizonListener.HorizonListenerService.ScheduleReconnect | backend/src/webhook/horizon.listener.ts:104-110 | waits the current delay and doubles the next, up to 30 s |
| HorizonListener.PayloadsExactly | backend/src/webhook/horizon.listener.ts:88-92 | exactly the lines that start with "data:" hand on their trimmed rest, in order |
| HorizonListener.TrimExactly | backend/src/webhook/horizon.listener.ts:90 | trimming takes spaces off both ends, and all of them |
| HorizonListener.SpacesExactly | backend/src/webhook/horizon.listener.ts:90 | the 25 code points that count as spaces |
| HorizonListener.CuttingIrrelevant | backend/src/webhook/horizon.listener.ts:80-93 | at equal amounts of text read, any two ways of cutting a stream have handed on the same lines |
| HorizonListener.NothingLost | backend/src/webhook/horizon.listener.ts:84-86 | lines and rest joined are the stream; no line holds a line feed |
| HorizonListener.BackOff | backend/src/webhook/horizon.listener.ts:104-110 | after k failures in a row the delay is 1000 * 2^k ms up to 30 s |
| Paging.FindAll | backend/src/marketplace/marketplace.service.ts:41-57 | fetching one row more and popping it gives the page after the cursor and whether there is more |
| Paging.FindAllClamped | backend/src/retirements/retirements.service.ts:20-40 | the same with the limit clamped to 1..100 |
| Paging.PageAfterExactly | backend/src/marketplace/marketplace.service.ts:41-57 | the page of a cursor starts after its row, at the first row without one, and names its last row as the next cursor exactly if more rows follow |
| Paging.PageAfterUnknown | backend/src/marketplace/marketplace.service.ts:41-57 | a cursor of no row has an empty last page |
| Paging.VisitExact | backend/src/projects/projects.service.ts:24-39 | page k of a client following the cursors starts at row take*k, and exists exactly for k < the page count |
| Paging.VisitsEverything | backend/src/retirements/retirements.service.ts:24-39 | the pages concatenate to the whole list, each row once and in order, on max(1, ceil(n/take)) pages |
| PriceOracle.AggregatePrices | oracle/price_oracle.py:76-105 | both loops: the result times the reported volumes of a methodology and vintage is the sum of price times volume over its positive quotes of both feeds; nothing if the volumes sum to zero |
| PriceOracle.SumsAgree | oracle/price_oracle.py:82-101 | the buckets add up to the sums over the quotes' own fields, absent ones read as VCS, 2023, 0 and 1 |
| PriceOracle.AverageWithinQuotes | oracle/price_oracle.py:97-103 | with non-negative volumes some counted quote is priced at most, and some at least, the average |
| PriceOracle.ToStroopsExactly | oracle/price_oracle.py:107-108 | prices are cut to ten-millionths toward zero |
| PriceOracle.AverageBetween | oracle/price_oracle.py:97-103 | with non-negative volumes an average lies between the least and greatest positive quote of its key |
| PriceOracle.PriceFeed.UpdatePrices | oracle/price_oracle.py:235-259 | each aggregated key sees its quote once: held beyond 15%, else remembered if the submission is confirmed and positive |
| PriceOracle.CyclesPerKey | oracle/price_oracle.py:235-259 | over a run of cycles a key's remembered price depends on its own quotes only |
| PriceOracle.PushesClose | oracle/price_oracle.py:239-258 | every push is positive and within 15% of the one before |
| PriceOracle.CyclesDrift | oracle/price_oracle.py:239-258 | after k further pushes a remembered price p satisfies 85^k p0 <= 100^k p <= 115^k p0 |
| PriceOracle.QuoteMovesExactly | oracle/price_oracle.py:239-258 | a quote changes a remembered price exactly when confirmed, different and within the band |
| PriceOracle.FirstQuoteExactly | oracle/price_oracle.py:239-258 | a first quote, or one after a price that is not positive, is remembered exactly if confirmed and positive |
| Cart.AddItemExact | frontend/lib/use-cart-store.ts:35-44 | adding keeps ids unique and sets the amount of that listing alone |
| Cart.AddItemKeepsPlaces | frontend/lib/use-cart-store.ts:35-44 | an item in the cart keeps its place and its listing snapshot; another is put at the end |
| Cart.AddItemCosts | frontend/lib/use-cart-store.ts:35-60 | adding changes the subtotal by the remembered price times the change of the amount |
| Cart.RemoveItemExact | frontend/lib/use-cart-store.ts:46-52 | removing keeps ids unique and drops that listing alone |
| Cart.RemoveItemKeepsOrder | frontend/lib/use-cart-store.ts:46-52 | removing takes out one place and keeps the order of the others |
| Cart.FeeGap | frontend/lib/use-cart-store.ts:61-67 | the cart's fee is at least the contract's per-line fees and exceeds them by at most n-1 stroops |
| Cart.TotalIsDebitExactly | frontend/lib/use-cart-store.ts:61-68 | the cart's total is what the contract debits if and only if the subtotal is below 100 stroops; otherwise it is larger by the fee |

## Left out

- CarbonMarketplaceContract.CarbonMarketplace.DeliverAll: the USDC payments of the third phase; the code there names a treasury that is not bound and pays the seller on two lines.
- CarbonMarketplaceContract.CarbonMarketplace.BulkPurchaseCredits: the same payments. A run takes the token state after a bulk purchase as an input, and the supply theorem is about runs without one.
- BulkEquivalence.BulkVersusSequence: the same payments on both sides; it compares listings and batch owners.
- BulkEquivalence.OutsiderBulk: as `BulkVersusSequence`.
- Stroops.BigIntExactly: as `BigInt` is modelled; surrounding white space and hexadecimal, octal and binary prefixes, which the original number reading accepts, count as not parsing.
- Csv.ExportReadsExactly: property names that look like array indices, which the runtime moves to the front, are taken in insertion order.
- PriceOracle.AggregatePrices: prices and volumes are exact rationals, so rounding of floating-point numbers is not modelled, and values that fail to convert are not part of the inputs.
- PriceOracle.PriceFeed.UpdatePrices: network and contract are an input that says which submissions are confirmed, with the contract's refusal of prices that are not positive kept; separately approved prices are pushed without being remembered and are not modelled.
- Paging.FindAll: the database is a fixed ordered list with distinct non-empty ids; ties in the sort order, concurrent inserts and the listings cache are not modelled.
- HorizonListener.HorizonListenerService.ReadStream: fetching, text decoding, JSON parsing and the job queue; which payloads parse to a tracked event is an input.
- LoginRateLimit.LoginRateLimitGuard.CanActivate: how the address is taken from the request, and the response that a refused request gets.
- CarbonOracleContract.CarbonOracle.VerifyOracleSignature: which signatures verify is a function of key, payload and signature that the theorems quantify over; the curve arithmetic and the byte encoding of payloads are not modelled. Elsewhere an address has authorised a call or not.
- Storage lifetimes, events, contract upgrades and version records, the registry address, string encodings, vector and resource limits of the host.
- The registry contracts, the project status table, the backend's own credit bookkeeping, authentication tokens, mail, IPFS, caches and indexers, and all pages and components.
