# Model of the wallet's core logic

A Dafny model of the TypeScript wallet CLI: its command deadline and request pacer, the wallet index with
the keystore files behind it, stored-document upgrades, EIP-712 type closures, the token book, receipt and
page decoding, and the exact decimal, pool and word arithmetic. Each file models one component; the source
paths below are relative to the root of the repository.

Code that changes an object in place is a class whose methods are proved against step functions on a value,
and what the code promises is proved about those functions: over every trace of events
(`CommandDeadline.dfy`, `RequestPacer.dfy`), over every run of index changes from the empty index
(`WalletIndexRuns.dfy`), over every history of commands cut off after any file effect
(`KeystoreHistories.dfy`), over every state of the files at the time of a commit (`Migration.dfy`). A loop in
the source is a method with that loop, proved equal to a recursive function; the properties of that function
are lemmas. Text that carries numbers is modelled as text, and the theorems say which exact number it
denotes.

| file | component |
|---|---|
| `CommandDeadline.dfy` | the deadline: pauses, resumes, release, dispose, early and late timers |
| `RequestPacer.dfy` | permits, the wait queue, start slots, all interleavings |
| `WalletIndex.dfy`, `WalletIndexRuns.dfy`, `WalletHoldings.dfy`, `WalletChanges.dfy`, `WalletsFileParser.dfy` | the wallet index, its invariant over all runs, deduplication, what each change does, and loading |
| `FreshIds.dfy`, `KeyText.dfy`, `Keystore.dfy` | new ids, private keys as text, and the file effects of every command |
| `KeystoreSafety.dfy`, `KeystoreHistories.dfy`, `KeystoreOutcomes.dfy` | crash points of one command, the journaled password change; histories of commands; the files after each command |
| `Migration.dfy`, `WalletsV2.dfy` | plan and commit of upgrades; the version 2 wallet migration |
| `TypedData.dfy` | type graph closure and normalization of typed data |
| `TokenBook.dfy` | canonical token ids, loading, adding and removing |
| `RegistrationMetadata.dfy`, `RechargeList.dfy` | the nesting worklist; the stitched page window |
| `BaiRechargeFlow.dfy`, `BaiPayment.dfy` | order, payment, wait and report of a recharge; the payer, timer and client the wallet puts behind them |
| `V4LiquidityReceipt.dfy`, `V4ReceiptText.dfy`, `V4Position.dfy`, `Ticks.dfy` | receipt flows and packed events; their text; packed positions; tick grids |
| `DecimalText.dfy`, `AmountText.dfy`, `PriceText.dfy` | decimal text, amounts and prices |
| `Liquidity.dfy`, `Slippage.dfy` | V2 pool arithmetic; tolerances as text |
| `X402NetworkId.dfy` | x402 network ids in two radixes |
| `Addresses.dfy` | the chain families and the canonical spelling of their addresses |
| `NumberText.dfy`, `Text.dfy`, `Words.dfy`, `Wrappers.dfy` | numerals, trimming, two's complement, Option and Result |

## Where the code does not do what one would expect

Each point is proved in the model, with the exact condition where it is one.

- A pacer run can claim a start slot and mark its call as dispatched without sending, because the check runs
  again after the claim (`RequestPacing.UnsentRunKeepsSlotIffRefusedAtLaunch`,
  `RequestPacing.ClaimedSlotMayGoUnused`).
- Removing an account by a text with a further segment, such as `wlt_a.1.junk`, removes the account and leaves
  its label (`WalletIndexRuns.RemovalKeepsTheIndexIff`, `WalletIndexRuns.RunOnRemovalLeavesTheLabel`). An
  inherited member name as the slot passes the membership test and removes nothing
  (`WalletIndexRuns.InheritedNameRemovesNothing`). No secret is at risk: the theorems on the keystore's files
  hold for every text.
- The search for a free default label lower-cases stored labels but does not trim them, while the uniqueness
  check does both. An omitted label is refused exactly when another account's label has outer white space and
  is otherwise the very default the search stops at (`WalletIndexRuns.DefaultLabelIsRefusedIff`); loading accepts
  such a label (`WalletsFileParser.LoadedLabelBlocksTheDefault`).
- The next account index wraps to a negative number after index 2147483647 (`WalletIndexRuns.NextIndexIsNewIff`).
- Loading a wallet index accepts more than the wallet writes: an accepted document satisfies the index invariant
  exactly when labels and active account name stored accounts, labels are trimmed and within the length limit,
  no two wallets name one secret, and no HD wallet is without an account
  (`WalletsFileParser.LoadedIndexIsWholeIff`). The dangerous case is the shared secret
  (`WalletsFileParser.SharedSecretIsAccepted`): deleting one of the wallets drops the file the other still
  names (`KeystoreSafety.SharedSecretIsLost`). A deletion drops a file the new index names exactly when another
  wallet shared it (`KeystoreSafety.DeletedSecretIsStillNamedIff`), which no history of the wallet brings about
  (`KeystoreHistories.DeleteDropsOnlyItsOwnSecret`).
- A struct named `__proto__` in typed data is validated and then lost (`TypedData.DeclaredStructsAreKeptIff`).
- Adding and removing a token restores the document unless the account had an explicitly empty list
  (`TokenBook.AddAndRemoveRestoresIff`); TRC10 ids that differ only in leading zeros are different tokens
  (`TokenBook.SameTokenIff`).
- A TRON network id may write in decimal a number that its own hexadecimal form cannot hold
  (`X402NetworkId.AcceptedIdRewritesIff`, `X402NetworkId.LongTronIdHasNoOwnForm`).

## What only other callers could reach

These hold of a class or of a port, and the wallet's own callers and adapters do not bring them about.

- A deadline released while a pause is open gets a timer again: the last resume arms one with an infinite delay,
  which lasts until the deadline is disposed or released once more
  (`CommandDeadlines.ReleasedTimer`, `CommandDeadlines.ReleaseDuringAPauseLeavesATimer`). The signal still never
  aborts. The one caller of release runs with no prompt open.
- The ports of a recharge allow a payment without a hash, a wait that fails, and a report refused as a usage error;
  the first would neither name the order nor forbid the retry, the others would lose the paid hash
  (`BaiRechargeFlow.OutcomeAfterTheOrder`). The payer, the timer and the client of the wallet give none of these:
  every recharge after the order names it or carries the hash, and forbids the retry
  (`BaiPayment.NoPaymentIsForgotten`).

## Model

| member | source | states |
|---|---|---|
| `CommandDeadlines.CommandDeadline.RemainingTime` | ts/src/application/services/command-deadline.ts:45-50 | the time left for one clock reading, without changing the deadline |
| `CommandDeadlines.CommandDeadline.IsExpired` | ts/src/application/services/command-deadline.ts:53-57 | whether the deadline has expired, aborting the signal the first time it has |
| `CommandDeadlines.CommandDeadline.Arm` | ts/src/application/services/command-deadline.ts:99-109 | setting, re-arming or expiring by the time left, nothing once disposed |
| `CommandDeadlines.CommandDeadline.Pause` | ts/src/application/services/command-deadline.ts:63-79 | the new state and the handle of a pause, nested pauses included |
| `CommandDeadlines.CommandDeadline.Resume` | ts/src/application/services/command-deadline.ts:71-78 | the new state after a resume; a second call of the same resume changes nothing |
| `CommandDeadlines.CommandDeadline.Release` | ts/src/application/services/command-deadline.ts:83-87 | the limit ends unless the deadline has expired |
| `CommandDeadlines.CommandDeadline.AdmitSubmit` | ts/src/application/services/command-deadline.ts:123-130 | a submit is admitted exactly when the deadline is active and the reserve is left |
| `CommandDeadlines.ReportsLimitMinusUnpausedTime` | ts/src/application/services/command-deadline.ts:45-57 | on every trace an unreleased limited deadline reports max(0, limit minus the time outside the union of the pauses) and has expired exactly when that is zero |
| `CommandDeadlines.SubmitAdmittedIffReserveIsLeft` | ts/src/application/services/command-deadline.ts:123-130 | on every trace of a limited deadline, before a release, a submit is admitted exactly when that reference time leaves at least two seconds |
| `CommandDeadlines.NoLimitAdmits` | ts/src/application/services/command-deadline.ts:123-130 | without a limit every submit is admitted, on every trace and at any two readings |
| `CommandDeadlines.ReleaseDecidesAdmission` | ts/src/application/services/command-deadline.ts:81-87 | after a release every submit is admitted if some of the limit was left at it, and none ever is otherwise, whatever follows |
| `CommandDeadlines.TimerCoversTheDeadline` | ts/src/application/services/command-deadline.ts:99-119 | a timer is set exactly while the clock runs on a live, undisposed deadline; when it fires it aborts exactly if the limit is used up, and else is set again for what is left |
| `CommandDeadlines.ExpiryIsPermanent` | ts/src/application/services/command-deadline.ts:41-43 | after an abort every later event leaves the deadline aborted and spent |
| `CommandDeadlines.ReleasedNeverAborts` | ts/src/application/services/command-deadline.ts:81-87 | a deadline released before expiry never aborts and reports no limit |
| `CommandDeadlines.NoLimitNeverAborts` | ts/src/application/services/command-deadline.ts:18-21 | a zero limit means no abort, no expiry and no timer on any trace |
| `CommandDeadlines.ReleasedTimer` | ts/src/application/services/command-deadline.ts:71-87 | exactly when a released deadline holds a timer again |
| `CommandDeadlines.DisposedSetsNoTimer` | ts/src/application/services/command-deadline.ts:89-101 | after a dispose no later event sets a timer |
| `RequestPacing.RequestPacer.Acquire` | ts/src/adapters/outbound/http/request-pacer.ts:43-64 | an arrival is rejected, gets a permit or joins the end of the queue |
| `RequestPacing.RequestPacer.AbortWait` | ts/src/adapters/outbound/http/request-pacer.ts:50-54 | the queue without the aborted waiter, the order of the others kept |
| `RequestPacing.RequestPacer.Release` | ts/src/adapters/outbound/http/request-pacer.ts:67-71 | the permit passes to the first waiter, or the count drops |
| `RequestPacing.RequestPacer.TryStart` | ts/src/adapters/outbound/http/request-pacer.ts:76-90 | one turn of the start loop: refused, claimed, unpaced or delayed, with the new schedule |
| `RequestPacing.PermitsAreBounded` | ts/src/adapters/outbound/http/request-pacer.ts:43-71 | in every interleaving the count is the number of permit holders and within the limit, and the queue is the waiting runs in arrival order, non-empty only when the pool is full |
| `RequestPacing.NoOvertaking` | ts/src/adapters/outbound/http/request-pacer.ts:43-71 | while a run waits no later arrival has ever had a permit |
| `RequestPacing.EndedRunsStayEnded` | ts/src/adapters/outbound/http/request-pacer.ts:49-63 | a run that left, in particular an aborted waiter, never gets a permit afterwards |
| `RequestPacing.DrainedPoolIsEmpty` | ts/src/adapters/outbound/http/request-pacer.ts:29-41 | once all runs have ended no permit is taken and nobody waits |
| `RequestPacing.EveryRunCanEnd` | ts/src/adapters/outbound/http/request-pacer.ts:29-71 | from every reachable state some continuation ends every run, so no permit is lost |
| `RequestPacing.SlotsAreSpaced` | ts/src/adapters/outbound/http/request-pacer.ts:76-90 | the b-th and the a-th claimed slot differ by at least (b - a) intervals for arbitrary clock readings |
| `RequestPacing.StartedRequestsOwnTheirSlot` | ts/src/adapters/outbound/http/request-pacer.ts:73-90 | with a positive interval each sent request owns a slot of its own, and a run refused before the claim owns none |
| `RequestPacing.SendsOnlyAfterThePassingCheck` | ts/src/adapters/outbound/http/request-pacer.ts:29-41 | a request is sent only in a turn whose check passed, by a permit holder |
| `RequestPacing.UndispatchedSentNothing` | ts/src/adapters/outbound/http/dispatch-context.ts:26-37 | a call that was not marked as dispatched has sent nothing |
| `RequestPacing.UnsentRunKeepsSlotIffRefusedAtLaunch` | ts/src/adapters/outbound/http/request-pacer.ts:32-37 | of the runs that end unsent exactly those refused by the second check keep a slot |
| `RequestPacing.ArrivalOutcome` | ts/src/adapters/outbound/http/request-pacer.ts:43-64 | an arrival is rejected exactly when aborted, gets a permit exactly when one is left, and waits otherwise; no other run changes |
| `RequestPacing.TurnOutcome` | ts/src/adapters/outbound/http/request-pacer.ts:76-90 | a turn with a free slot claims it now or is refused; one without waits for exactly the next slot, at most one interval away unless the clock went back |
| `RequestPacing.LaunchOutcome` | ts/src/adapters/outbound/http/request-pacer.ts:32-37 | a launch that the second check does not refuse sends the request and marks its call |
| `RequestPacing.EndingOutcome` | ts/src/adapters/outbound/http/request-pacer.ts:66-71 | when a permit holder ends, the first waiting run gets the permit and no other run changes; a waiter that leaves passes none on |
| `WalletIndex.WalletsFile.NextDefaultLabel` | ts/src/domain/wallet/transitions.ts:26-32 | the counting loop gives the first free numbered label from the wallet count on |
| `WalletIndex.WalletsFile.AssignLabel` | ts/src/domain/wallet/transitions.ts:16-24 | a label is stored trimmed, or refused when invalid or used elsewhere ignoring case |
| `WalletIndex.WalletsFile.FindDuplicate` | ts/src/domain/wallet/transitions.ts:35-54 | the stored account a source re-registers, by its kind |
| `WalletIndex.WalletsFile.RegisterWallet` | ts/src/domain/wallet/transitions.ts:60-76 | the new index and result of a registration, duplicates and refused labels included |
| `WalletIndex.WalletsFile.SelectDerivedAccount` | ts/src/domain/wallet/transitions.ts:93-121 | the new index after selecting or adding an account slot |
| `WalletIndex.WalletsFile.RemoveAccount` | ts/src/domain/wallet/transitions.ts:135-173 | the new index and result of removing an account or a wallet |
| `WalletIndexRuns.EveryRunKeepsTheIndex` | ts/src/domain/wallet/transitions.ts:16-173 | after every run from the empty index: distinct wallet and secret ids, non-empty HD wallets, labels distinct ignoring case; and while texts name stored accounts and removals do not run on, labels naming exactly the stored accounts and the active account none or stored |
| `WalletIndexRuns.RemovalKeepsTheIndexIff` | ts/src/domain/wallet/transitions.ts:135-173 | removal keeps the invariant exactly when the text does not run on past the slot |
| `WalletIndexRuns.RunOnRemovalLeavesTheLabel` | ts/src/domain/wallet/transitions.ts:136-145 | with such a text the account goes and its label stays |
| `WalletIndexRuns.InheritedNameRemovesNothing` | ts/src/domain/wallet/transitions.ts:140-145 | an inherited member name passes the membership test and changes nothing |
| `WalletIndexRuns.RemovingAnAccountKeepsTheWallet` | ts/src/domain/wallet/transitions.ts:131-160 | in every reachable index removing an HD account other than 0 never removes its wallet |
| `WalletHoldings.NoAccountIsHeldTwice` | ts/src/domain/wallet/transitions.ts:34-54 | after every run no two HD wallets have the same account 0, and no two wallets are the same private key, path on the device or watched address |
| `WalletChanges.RegisteringAnew` | ts/src/domain/wallet/transitions.ts:60-76 | a new wallet goes to the end with the label asked for or the default and is the active account afterwards, a watch account excepted; a refused label changes nothing |
| `WalletChanges.RegisteringAgain` | ts/src/domain/wallet/transitions.ts:34-69 | a registration of a held account changes only the active account, to a stored account the source stands for, and nothing for a watch account |
| `WalletChanges.SelectingAStoredAccount` | ts/src/domain/wallet/transitions.ts:99-120 | a stored account becomes the active one and nothing else changes, unless another name than its own is given |
| `WalletChanges.SelectingANewAccount` | ts/src/domain/wallet/transitions.ts:99-120 | a new account is stored with its addresses and label and is the active one; all other accounts and labels stay |
| `WalletChanges.Renaming` | ts/src/domain/wallet/transitions.ts:16-24 | the trimmed label is stored under the reference and nothing else changes, or nothing does |
| `WalletChanges.RemovalFailsIff` | ts/src/domain/wallet/transitions.ts:135-143 | exactly when a removal fails, for any text |
| `WalletChanges.Removing` | ts/src/domain/wallet/transitions.ts:135-173 | the account or all accounts of the wallet go and no other; the rest keeps addresses and labels; the active account stays while stored, and else is the lowest account of the first wallet |
| `WalletChanges.RemovalLeaves` | ts/src/domain/wallet/transitions.ts:144-182 | the labels and the active account after a removal from any index by any text |
| `WalletChanges.RemovalIsReported` | ts/src/domain/wallet/transitions.ts:154-172 | the report names what was asked for, whether its wallet is gone, and the active account of the new index |
| `WalletChanges.RemovalKeepsTheRest` | ts/src/domain/wallet/transitions.ts:144-162 | a removal changes no address, secret or id of what it leaves |
| `WalletIndexRuns.DefaultLabelIsRefusedIff` | ts/src/domain/wallet/transitions.ts:15-32 | an omitted label is refused exactly when another account's label is the default but for outer white space |
| `WalletIndexRuns.OmittedLabelIsAccepted` | ts/src/domain/wallet/transitions.ts:15-32 | so it is never refused while the stored labels are trimmed |
| `WalletIndexRuns.UntrimmedLabelBlocksTheDefault` | ts/src/domain/wallet/transitions.ts:26-32 | a stored label for which it is refused |
| `WalletsFileParser.LoadedLabelBlocksTheDefault` | ts/src/domain/wallet/label.ts:18-22 | loading accepts that label, whatever the wallets are |
| `WalletIndexRuns.NextIndexIsNewIff` | ts/src/domain/wallet/transitions.ts:84-87 | an omitted index names a new, non-negative slot exactly while the last 31-bit index is unused |
| `WalletIndexRuns.WalletIdIff` | ts/src/domain/wallet/wallets-file.ts:7-9 | which texts are wallet ids and file ids, character by character |
| `WalletsFileParser.CheckLabels` | ts/src/domain/wallet/wallets-file.ts:23-30 | the loop accepts exactly valid labels that differ by their keys |
| `WalletsFileParser.CheckWallets` | ts/src/domain/wallet/wallets-file.ts:31-77 | the loop accepts exactly valid wallets with distinct ids |
| `WalletsFileParser.ParseWalletsFile` | ts/src/domain/wallet/wallets-file.ts:14-38 | acceptance of a document and the document returned, with its two optional members filled in |
| `WalletsFileParser.DocumentIsAcceptedIff` | ts/src/domain/wallet/wallets-file.ts:14-96 | a document is accepted exactly when it has a numeric version and lists wallets and labels that meet the written rules; unknown members and kinds are no obstacle |
| `WalletsFileParser.LabelsLoadIff` | ts/src/domain/wallet/wallets-file.ts:23-30 | labels are accepted exactly when none is blank or begins like an id and no two agree ignoring case and outer space |
| `WalletsFileParser.WrittenIndexGivesItself` | ts/src/domain/wallet/wallets-file.ts:31-37 | the index a document stands for is, for a written one, the index written |
| `WalletsFileParser.WrittenIndexLoadsUnchanged` | ts/src/domain/wallet/wallets-file.ts:12-38 | every index a run can write is accepted on loading and comes back unchanged |
| `WalletsFileParser.IndexLoadsIff` | ts/src/domain/wallet/wallets-file.ts:14-77 | a written index is accepted exactly when its wallet ids are distinct, its wallets valid, and its labels stored ones and distinct by their keys |
| `WalletsFileParser.LoadedIndexIsWholeIff` | ts/src/domain/wallet/wallets-file.ts:14-77 | exactly which accepted indexes satisfy the index invariant |
| `WalletsFileParser.SharedSecretIsAccepted` | ts/src/domain/wallet/wallets-file.ts:40-63 | an accepted document, otherwise matching, in which two wallets name one secret |
| `FreshIds.DrawFreshId` | ts/src/adapters/outbound/keystore/index.ts:593-599 | the loop gives the first drawn id that no wallet and no secret has |
| `FreshIds.FreshIdIsFree` | ts/src/adapters/outbound/keystore/index.ts:593-599 | the id has the form loading accepts and differs from every wallet id and secret id |
| `FreshIds.FreshIdIsFound` | ts/src/adapters/outbound/keystore/index.ts:595-598 | the loop ends once it has drawn more different numbers than there are ids taken |
| `FreshIds.IdIsBase32` | ts/src/adapters/outbound/keystore/index.ts:596 | an id is its prefix and the drawn bytes as eight digits in base 32 without i, l, o and u |
| `KeyText.KeyReadsBack` | ts/src/adapters/outbound/keystore/index.ts:135-150 | the bytes of an accepted private key, with or without the prefix, are accepted as the same key |
| `KeyText.SameKeyIff` | ts/src/adapters/outbound/keystore/index.ts:135-150 | two accepted texts are one key exactly when they write the same number |
| `KeyText.KeyIsAcceptedIff` | ts/src/adapters/outbound/keystore/index.ts:135-150 | a text is accepted exactly when, trimmed, it is 64 hex digits, perhaps after 0x, for a number from 1 to below the order of the curve |
| `Keystore.Keystore.Import` | ts/src/adapters/outbound/keystore/index.ts:114-177 | the exact list of file effects of an import, after those of the recovery, with the private key it reads, the ids it draws and the addresses it derives |
| `Keystore.Keystore.Register` | ts/src/adapters/outbound/keystore/index.ts:179-209 | the exact effects of registering a Ledger or watch account |
| `Keystore.CheckDerivable` | ts/src/adapters/outbound/keystore/index.ts:243-266 | the loop accepts exactly when every stored TRON address but that of account 0 is at the seed's current path |
| `Keystore.CheckAccount` | ts/src/adapters/outbound/keystore/index.ts:268-281 | a stored account is accepted exactly when both addresses are the seed's at a known path |
| `Keystore.Keystore.AddAccount` | ts/src/adapters/outbound/keystore/index.ts:211-241 | the exact effects of adding or selecting an HD account, after those checks |
| `Keystore.Keystore.Rename` | ts/src/adapters/outbound/keystore/index.ts:323-335 | the exact effects of a rename, by any text |
| `Keystore.Keystore.SetActive` | ts/src/adapters/outbound/keystore/index.ts:337-346 | the exact effects of activating an account, by any text |
| `Keystore.Keystore.Delete` | ts/src/adapters/outbound/keystore/index.ts:397-419 | the exact effects of a deletion, the index before the secret |
| `Keystore.Keystore.ChangePassword` | ts/src/adapters/outbound/keystore/index.ts:437-501 | the exact effects of a password change through the journal |
| `Keystore.Keystore.Reseal` | ts/src/adapters/outbound/keystore/index.ts:449-474 | the loop builds one re-encrypted entry per software wallet, or gives up when one does not open |
| `KeystoreHistories.EveryIndexedSecretIsOnDisk` | ts/src/adapters/outbound/keystore/index.ts:101-177 | at every crash point of every history of commands, from an empty, an upgraded or any other sound keystore, each indexed software wallet has its own whole secret file, and the verifier exists |
| `KeystoreHistories.OnePasswordOpensEverything` | ts/src/adapters/outbound/keystore/index.ts:101-112 | after any history and the recovery one password opens the verifier and every indexed secret, each with its original plaintext, from which all its stored addresses derive, at the current path or, after an upgrade, at the legacy one |
| `KeystoreHistories.EveryCrashLeavesALoadableIndex` | ts/src/adapters/outbound/keystore/index.ts:89-99 | no history leaves an index that loading refuses or changes |
| `KeystoreHistories.PreciseHistoriesKeepTheIndex` | ts/src/adapters/outbound/keystore/index.ts:101-419 | the whole index invariant at every crash point, while commands name stored accounts and deletions do not run on past a slot |
| `KeystoreHistories.OwnWalletsPassTheChecks` | ts/src/adapters/outbound/keystore/index.ts:226-281 | the checks before an account is added refuse no wallet whose addresses are at the current paths, as all are that this version makes |
| `KeystoreHistories.EmptyDiskIsHealthy` | ts/src/adapters/outbound/keystore/index.ts:89-95 | an empty keystore is a start for all of these |
| `KeystoreHistories.UpgradedWalletFits` | ts/src/domain/migration/wallets-v2.ts:26-62 | so is, for its addresses, every software wallet the upgrade to version 2 leaves |
| `KeystoreHistories.NoHistoryHoldsAnAccountTwice` | ts/src/domain/wallet/transitions.ts:34-54 | no history from an empty keystore, cut off anywhere, holds one account in two wallets |
| `KeystoreHistories.ImportingAgainAddsNothing` | ts/src/adapters/outbound/keystore/index.ts:157-161 | importing a secret whose account a wallet holds writes no file and adds no wallet |
| `KeystoreSafety.PasswordChangeIsAtomic` | ts/src/adapters/outbound/keystore/index.ts:437-501 | whatever the files hold, a password change cut off anywhere leaves, after recovery, all old or all new files, decided by one effect |
| `KeystoreSafety.PasswordChangeHappensIff` | ts/src/adapters/outbound/keystore/index.ts:437-476 | a change has effects exactly when the old password opens the verifier and the secret of every indexed software wallet, and there is one |
| `KeystoreSafety.ChangedPasswordOpensEverything` | ts/src/adapters/outbound/keystore/index.ts:449-501 | after all its effects the new password opens the verifier and every secret with its old plaintext, and every other file is as before |
| `KeystoreHistories.ImportedWalletIsFresh` | ts/src/adapters/outbound/keystore/index.ts:114-161 | the wallet an import builds with the ids it draws is valid and new to the index |
| `KeystoreSafety.ImportOverwritesNothing` | ts/src/adapters/outbound/keystore/index.ts:163-175 | with no assumption on the ids, an import writes no secret file that an indexed wallet names, and no second verifier |
| `KeystoreSafety.DeletedSecretIsStillNamedIff` | ts/src/adapters/outbound/keystore/index.ts:397-419 | on every index, exactly when a deletion drops a file that the new index still names |
| `KeystoreSafety.SharedSecretIsLost` | ts/src/adapters/outbound/keystore/index.ts:397-419 | what deletion does to the accepted document in which two wallets name one secret |
| `KeystoreHistories.DeleteDropsOnlyItsOwnSecret` | ts/src/adapters/outbound/keystore/index.ts:404-418 | a deletion drops only a file no wallet of the written index names, after writing that index |
| `KeystoreOutcomes.ImportOutcome` | ts/src/adapters/outbound/keystore/index.ts:114-177 | when an import goes through, and then the wallet, its label, its file and the verifier on disk; a held account is only selected |
| `KeystoreOutcomes.ImportActivates` | ts/src/adapters/outbound/keystore/index.ts:157-177 | the imported account, new or held, is the active one on disk afterwards |
| `KeystoreOutcomes.ImportRefused` | ts/src/adapters/outbound/keystore/index.ts:114-156 | an import of a refused secret, or without a free id, has no effect |
| `KeystoreOutcomes.RegisterOutcome` | ts/src/adapters/outbound/keystore/index.ts:179-209 | a registration with a valid address writes the index with the account under the first free id and touches no other file; a malformed one does nothing |
| `KeystoreOutcomes.AddAccountOutcome` | ts/src/adapters/outbound/keystore/index.ts:211-241 | when an account is added or selected, and then its addresses, label and activity on disk |
| `KeystoreOutcomes.AddAccountRefused` | ts/src/adapters/outbound/keystore/index.ts:219-230 | without the password of the vault, or for an index from 2^31 on, nothing happens |
| `KeystoreOutcomes.RenameOutcome` | ts/src/adapters/outbound/keystore/index.ts:323-335 | the label on disk afterwards, and that nothing else changed |
| `KeystoreOutcomes.ActivateOutcome` | ts/src/adapters/outbound/keystore/index.ts:337-346 | the active account on disk afterwards, and that nothing else changed |
| `KeystoreOutcomes.DeleteOutcome` | ts/src/adapters/outbound/keystore/index.ts:397-419 | the index on disk afterwards; the secret file is gone exactly when its wallet is |
| `Migration.MigrationRunner.Commit` | ts/src/adapters/outbound/persistence/migration.ts:75-95 | the loop applies exactly the specified batch of writes, or none |
| `Migration.UpgradeFailsIff` | ts/src/adapters/outbound/persistence/migration.ts:75-95 | an upgrade writes nothing exactly when some planned file has an invalid or unexpected version or does not migrate |
| `Migration.UpgradeErrorIsTheFirst` | ts/src/adapters/outbound/persistence/migration.ts:77-92 | the error is that of the first file that cannot be upgraded |
| `Migration.UpgradeStoresBackupAndMigration` | ts/src/adapters/outbound/persistence/migration.ts:74-95 | each planned file that is not current stores the document read under the lock as its backup and its migration as the content |
| `Migration.UpgradeTouchesNothingElse` | ts/src/adapters/outbound/persistence/migration.ts:75-95 | every other path, a planned file that is already current included, keeps its content |
| `Migration.SecondUpgradeChangesNothing` | ts/src/adapters/outbound/persistence/migration.ts:61-95 | applying the same plan again changes nothing |
| `Migration.PlanListsTheStaleSteps` | ts/src/adapters/outbound/persistence/migration.ts:39-59 | a plan lists a step exactly when the stored version of its document is below the current one, with that version |
| `Migration.PlanNeedsThePasswordIff` | ts/src/adapters/outbound/persistence/migration.ts:40-57 | a plan asks for the password exactly when a listed document needs it |
| `Migration.PlanFailsIff` | ts/src/adapters/outbound/persistence/migration.ts:40-46 | there is no plan exactly when some document has an invalid version |
| `Migration.StoredVersionIs` | ts/src/domain/migration/index.ts:20-28 | a missing document counts as current; any other has its version unless that is not a whole number from 1 |
| `Migration.PlansAreProper` | ts/src/adapters/outbound/persistence/migration.ts:39-59 | a plan over distinct paths meets what the commit theorems ask of a plan |
| `Migration.BackupPathsDiffer` | ts/src/adapters/outbound/persistence/migration.ts:31-34 | different files or versions never share a backup path |
| `WalletsV2.FindDerivation` | ts/src/domain/wallet/derivation-match.ts:15-37 | the loop finds the first path, current before legacy, whose address is the cached one |
| `WalletsV2.ResolvedIff` | ts/src/domain/wallet/derivation-match.ts:15-37 | an address is current, legacy or neither exactly by the two written paths; only TRON slots past 0 have a legacy one |
| `WalletsV2.SlotKeepsTheTronAddress` | ts/src/domain/migration/wallets-v2.ts:34-49 | a cached TRON address of either written path survives the migration exactly |
| `WalletsV2.MigrationKeepsEveryAccount` | ts/src/domain/migration/wallets-v2.ts:26-62 | wallet order, ids, secrets, account indices and cached HD TRON addresses are kept |
| `WalletsV2.MigrationFailsIff` | ts/src/domain/migration/wallets-v2.ts:31-44 | it fails exactly when a secret is missing or a cached TRON address is at neither of the written paths of its slot |
| `WalletsV2.SecondMigrationChangesNothing` | ts/src/domain/migration/wallets-v2.ts:26-62 | migrating the result again gives the same index |
| `TypedData.CopyIsStable` | ts/src/domain/typed-data/index.ts:30-53 | a copied value is a JSON value whose copy is itself |
| `TypedData.CopyAgrees` | ts/src/domain/typed-data/index.ts:30-53 | every path of keys and indices leads to the same leaf in the copy as in the value, only undefined members are missing, and nothing is added |
| `TypedData.CopyIsRefusedIff` | ts/src/domain/typed-data/index.ts:30-53 | a value is refused exactly when some path leads to a value that JSON does not have |
| `TypedData.Walk` | ts/src/domain/typed-data/index.ts:74-80 | on a cyclic graph too the walk ends, adds only reachable declared types, and closes them under references |
| `TypedData.TypeClosure` | ts/src/domain/typed-data/index.ts:69-83 | the walk and filter give exactly the declared types reachable from the root, in order |
| `TypedData.IsReferencedType` | ts/src/domain/typed-data/index.ts:59-66 | true exactly when some field has that element type |
| `TypedData.NormalizeTypedData` | ts/src/domain/typed-data/index.ts:99-166 | the payload or the error, for every input object |
| `TypedData.AcceptedIff` | ts/src/domain/typed-data/index.ts:99-155 | exactly which inputs are accepted, in terms of the input |
| `TypedData.NormalizedDataIsTheGiven` | ts/src/domain/typed-data/index.ts:102-166 | domain and message of the result agree with the input on every path, the primary type is the one given, and each type has the fields given under its name |
| `TypedData.ElementTypeDropsSuffixes` | ts/src/domain/typed-data/index.ts:55-57 | the element type is the text without its array suffixes |
| `TypedData.ClosureIsReachable` | ts/src/domain/typed-data/index.ts:68-83 | a type is kept exactly when it is declared and a chain of references leads to it |
| `TypedData.ClosureIsClosed` | ts/src/domain/typed-data/index.ts:68-83 | a declared type that a kept one mentions is kept |
| `TypedData.ClosureHasOneRoot` | ts/src/domain/typed-data/index.ts:68-83 | every kept type but the root is mentioned by a kept type |
| `TypedData.ClosureTwice` | ts/src/domain/typed-data/index.ts:68-83 | taking the closure again changes nothing |
| `TypedData.NormalizedTypesAreTheRootsClosure` | ts/src/domain/typed-data/index.ts:140-165 | with a declared primary type the result contains it unreferenced and is closed under declared references |
| `TypedData.InferredRootIsTheDeclaredOne` | ts/src/domain/typed-data/index.ts:85-96 | inferring the root from the normalized types gives the declared one |
| `TypedData.NormalizingTwiceChangesNothing` | ts/src/domain/typed-data/index.ts:99-166 | a normalized payload normalizes to itself |
| `TypedData.DeclaredStructsAreKeptIff` | ts/src/domain/typed-data/index.ts:115-133 | every declared struct is kept exactly when none is named `__proto__` |
| `Addresses.CanonicalIsStable` | ts/src/domain/address/index.ts:116-134 | a canonical spelling is an address and its own canonical spelling |
| `Addresses.SameCanonicalIff` | ts/src/domain/address/index.ts:130-134 | two addresses have one canonical spelling exactly when they differ in letter case at most, on TRON not at all |
| `Addresses.EvmAddressIff` | ts/src/domain/address/index.ts:157-164 | exactly which texts are addresses, character by character for EVM |
| `Addresses.CanonicalIsChecksummed` | ts/src/domain/address/index.ts:130-134 | a letter of the canonical spelling is a capital exactly where the hash has a digit from 8 on |
| `TokenBook.CanonicalIdIsStable` | ts/src/domain/token/index.ts:12-25 | a canonical id is valid and canonical |
| `TokenBook.SameTokenIff` | ts/src/domain/address/index.ts:131-133 | two valid spellings have one canonical id exactly when they differ in letter case at most, and for TRC10 and TRC20 only when equal |
| `TokenBook.EntryIsReadIff` | ts/src/domain/token/index.ts:27-44 | an entry is read exactly when all its fields are valid, and then as they are but for the canonical id |
| `TokenBook.EntryErrorIs` | ts/src/domain/token/index.ts:27-44 | the error of an invalid entry is the first that applies |
| `TokenBook.FindIndex` | ts/src/domain/token/index.ts:67 | the position of the first entry with the kind and id, or the length |
| `TokenBook.MergeList` | ts/src/domain/token/index.ts:55-71 | loading a list equals replaying it, entry by entry, through the add operation without official tokens, errors included |
| `TokenBook.LoadedListIsStored` | ts/src/domain/token/index.ts:46-74 | a loaded list has no token twice and only entries in stored form |
| `TokenBook.StoredListLoadsUnchanged` | ts/src/domain/token/index.ts:46-74 | loading what was loaded changes nothing |
| `TokenBook.LastEntryWins` | ts/src/domain/token/index.ts:46-47 | an entry is in the loaded list exactly when it is the last one for its token |
| `TokenBook.FirstMentionDecidesTheOrder` | ts/src/domain/token/index.ts:46-47 | the order of the loaded list is that of first mention |
| `TokenBook.AdditionOutcome` | ts/src/domain/token/book.ts:24-41 | an official token is refused, an unlisted one goes to the end, a listed one is replaced where it stands |
| `TokenBook.RemovalOutcome` | ts/src/domain/token/book.ts:43-58 | an official or unlisted token is refused, and else its entry is taken out and returned |
| `TokenBook.RemovalUndoesAddition` | ts/src/domain/token/book.ts:25-58 | removing a freshly added token, in any spelling of its id, restores the list |
| `TokenBook.AdditionKeepsTheListStored` | ts/src/domain/token/book.ts:24-41 | adding keeps the list loadable and adding again only refreshes |
| `TokenBook.RemovalTakesOutTheToken` | ts/src/domain/token/book.ts:43-58 | removal takes out exactly the named token |
| `TokenBook.EffectiveListIsTheUnion` | ts/src/domain/token/book.ts:11-22 | all official tokens, the user tokens they do not shadow, and no token twice |
| `TokenBook.Book.Add` | ts/src/adapters/outbound/tokenbook/index.ts:39-44 | the new document, or the error and the document unchanged |
| `TokenBook.Book.Remove` | ts/src/adapters/outbound/tokenbook/index.ts:46-68 | the new document without an empty list, or the error and the document unchanged |
| `TokenBook.AddAndRemoveRestoresIff` | ts/src/adapters/outbound/tokenbook/index.ts:53-75 | adding and removing restores all lists exactly unless the list was stored as empty |
| `RegistrationMetadata.ParseMetadata` | ts/src/adapters/outbound/erc8004/registration-loader.ts:311-332 | the worklist ends and accepts an object exactly when its recursive depth is at most 20 |
| `RegistrationMetadata.DepthIsTheLongestChain` | ts/src/adapters/outbound/erc8004/registration-loader.ts:321-330 | the depth exceeds n exactly when some chain of nested objects and arrays is longer than n |
| `RechargeList.List` | ts/src/application/use-cases/bai-service.ts:295-323 | the one or two pages give exactly the orders from the offset on, at most min(limit, 100), and exactly when the second page is fetched |
| `BaiRechargeFlow.Flow.Execute` | ts/src/application/use-cases/bai-recharge-flow.ts:35-126 | the calls made and the outcome for all answers of the API, the payer and the clock |
| `BaiRechargeFlow.Flow.ReportTransaction` | ts/src/application/use-cases/bai-recharge-flow.ts:135-181 | one report call and its outcome |
| `BaiRechargeFlow.CallsFollowTheProtocol` | ts/src/application/use-cases/bai-recharge-flow.ts:26-126 | the calls are a prefix of order, payment, wait, report: at most one payment and one report, the report only for a payment of the requested wallet on the requested chain, with its hash |
| `BaiRechargeFlow.CallsAreMadeIff` | ts/src/application/use-cases/bai-recharge-flow.ts:35-126 | each call is made exactly when the one before has answered as it should and the time limit admits it; without admission no call is made |
| `BaiRechargeFlow.RefusedBeforeTheOrder` | ts/src/application/use-cases/bai-recharge-flow.ts:38-50 | the outcome when no order is made |
| `BaiRechargeFlow.CreditedIff` | ts/src/application/use-cases/bai-recharge-flow.ts:142-152 | credited exactly when such a report was made and accepted |
| `BaiRechargeFlow.OutcomeAfterTheOrder` | ts/src/application/use-cases/bai-recharge-flow.ts:49-126 | for every outcome once the order exists, exactly when it names the order, forbids the retry, carries the paid hash and says that nothing was sent |
| `BaiRechargeFlow.FailedPaymentSays` | ts/src/application/use-cases/bai-recharge-flow.ts:54-86 | the kind, code and details of the error after a failed payment |
| `BaiRechargeFlow.UnconfirmedSays` | ts/src/application/use-cases/bai-recharge-flow.ts:93-126 | what an unconfirmed credit says, and when |
| `BaiPayment.PaymentIsAHash` | ts/src/application/services/bai-payment-result.ts:7-33 | a settlement counts as a payment only with a transaction hash of the network's family |
| `BaiPayment.PaymentIsAcceptedIff` | ts/src/application/services/bai-payment-result.ts:7-32 | exactly which settlements count as the requested payment |
| `BaiPayment.TimerWaitNeverFails` | ts/src/bootstrap/composition.ts:187-190 | a wait ends by the clock exactly when the signal has not ended it, and otherwise is put down to the deadline |
| `BaiPayment.ReportIsNotRefused` | ts/src/adapters/outbound/bai/recharge-client.ts:133-193 | what passed the client's checks of the order passes those of the report |
| `BaiPayment.RequestIsSentIff` | ts/src/adapters/outbound/bai/recharge-client.ts:163-198 | a request is sent exactly with a key, to a secure origin and with valid fields |
| `BaiPayment.NoPaymentIsForgotten` | ts/src/application/use-cases/bai-service.ts:187-213 | with the wallet's own payer, timer and client, every recharge after the order forbids the retry, and names the order or carries the paid hash |
| `BaiRechargeFlow.RecoveryOnlyReports` | ts/src/application/use-cases/bai-recharge-flow.ts:128-181 | any number of later report attempts never pays again, reports only the retained hash, and credits exactly what the API credits |
| `BaiRechargeFlow.ReportSays` | ts/src/application/use-cases/bai-recharge-flow.ts:135-180 | what a later report attempt says of its reply |
| `V4LiquidityReceipt.TokenFlow` | ts/src/adapters/outbound/sunswap/v4-liquidity-receipt.ts:103-118 | the loop over the logs gives the signed sum, or unknown |
| `V4LiquidityReceipt.NativeFlow` | ts/src/adapters/outbound/sunswap/v4-liquidity-receipt.ts:78-102 | the loops over internal transfers give the signed sum less what was sent, or unknown |
| `V4LiquidityReceipt.TokenFlowIsReceivedMinusSent` | ts/src/adapters/outbound/sunswap/v4-liquidity-receipt.ts:103-118 | a known flow is all received minus all sent, in any order of the logs |
| `V4LiquidityReceipt.NativeFlowIsReceivedMinusSent` | ts/src/adapters/outbound/sunswap/v4-liquidity-receipt.ts:78-102 | the same for internal TRX transfers |
| `V4LiquidityReceipt.TokenFlowIsKnownIff` | ts/src/adapters/outbound/sunswap/v4-liquidity-receipt.ts:104-116 | a flow is unknown exactly when a log that may concern the account cannot be read |
| `V4ReceiptText.FlowIsKnownIff` | ts/src/adapters/outbound/sunswap/v4-liquidity-receipt.ts:75-118 | when a balance change is known, in a token or in TRX, and that it is all received less all sent, less the amount of the call itself |
| `V4ReceiptText.LogIsRead` | ts/src/adapters/outbound/sunswap/v4-liquidity-receipt.ts:103-117 | how any one log changes the balance of any account, in terms of the characters of its address, topics and data |
| `V4ReceiptText.EmittedTransferIsRead` | ts/src/adapters/outbound/sunswap/v4-liquidity-receipt.ts:103-117 | a transfer as emitted adds its amount to the receiver, takes it off the sender and changes no other account |
| `V4ReceiptText.CallIsRead` | ts/src/adapters/outbound/sunswap/v4-liquidity-receipt.ts:83-101 | how any one internal transfer does; rejected ones and TRC10 values do not count |
| `V4LiquidityReceipt.TokenFlowsSumToZero` | ts/src/adapters/outbound/sunswap/v4-liquidity-receipt.ts:103-118 | the flows of distinct accounts that include all senders and receivers sum to zero |
| `V4LiquidityReceipt.NativeFlowsSumToZero` | ts/src/adapters/outbound/sunswap/v4-liquidity-receipt.ts:83-102 | the same for internal TRX transfers |
| `V4LiquidityReceipt.PairReadsBack` | ts/src/adapters/outbound/sunswap/v4-liquidity-receipt.ts:20-21 | unpacking and packing two signed 128-bit halves are inverse |
| `V4LiquidityReceipt.DataReadsBack` | ts/src/adapters/outbound/sunswap/v4-liquidity-receipt.ts:16-19 | each word of encoded event data is read back |
| `V4LiquidityReceipt.Decode` | ts/src/adapters/outbound/sunswap/v4-liquidity-receipt.ts:32-132 | a result exactly when the change and both flows are known, and its members |
| `V4LiquidityReceipt.EmittedChangeIsDecoded` | ts/src/adapters/outbound/sunswap/v4-liquidity-receipt.ts:43-73 | one position event and its pool event among unrelated logs decode to the numbers they were emitted with |
| `V4ReceiptText.ChangeIsReadIff` | ts/src/adapters/outbound/sunswap/v4-liquidity-receipt.ts:43-73 | a change is read exactly from a single position event and a single matching pool event, with whole words and no negative fee |
| `V4ReceiptText.PositionIsFoundIff` | ts/src/adapters/outbound/sunswap/v4-liquidity-receipt.ts:43-50 | which logs are taken for the position event, character by character |
| `V4ReceiptText.PoolChangeIsFoundIff` | ts/src/adapters/outbound/sunswap/v4-liquidity-receipt.ts:58-72 | which logs are taken for its pool event |
| `V4Position.PackedFieldsReadBack` | ts/src/domain/sunswap/v4-position.ts:1-7 | unpacking inverts packing of the documented layout |
| `V4Position.UnpackedWordPacksBack` | ts/src/domain/sunswap/v4-position.ts:1-7 | packing inverts unpacking on every 256-bit word |
| `V4Position.DecodeInvertsPacking` | ts/src/domain/sunswap/v4-position.ts:17-40 | decimal and hex text of a packed word decode to the packed fields |
| `V4Position.PositionIsDecodedIff` | ts/src/domain/sunswap/v4-position.ts:17-40 | exactly which texts are decoded, and the pool prefix as fifty hex digits of the same number |
| `V4Position.PoolIdIsReadIff` | ts/src/domain/sunswap/v4-position.ts:43-61 | a pool id is read exactly when it is hex, with or without the prefix, as that number |
| `V4Position.PoolAcceptedIffTopBitsAgree` | ts/src/domain/sunswap/v4-position.ts:42-51 | a pool id is accepted exactly when its top 200 bits are those of the word, and which error it gets otherwise |
| `Ticks.AcceptedIffOnGrid` | ts/src/domain/sunswap/ticks.ts:47-67 | a boundary is accepted exactly when it is a grid point within the bounds |
| `Ticks.AlignedIsNearest` | ts/src/domain/sunswap/ticks.ts:33-45 | aligning gives the nearest grid point within the bounds, the upper of two |
| `Ticks.DefaultRangeIsValid` | ts/src/domain/sunswap/ticks.ts:69-88 | the default range has accepted boundaries around the aligned tick and is non-empty exactly up to the largest tick as spacing |
| `AmountText.FromBaseUnitsIsExact` | ts/src/domain/amounts/index.ts:59-71 | the decimal text denotes exactly the base units, without superfluous zeros |
| `AmountText.ToBaseUnitsIsExact` | ts/src/domain/amounts/index.ts:73-97 | exactly which texts are accepted, and that the base units are the same number |
| `AmountText.BaseUnitsRoundTrip` | ts/src/domain/amounts/index.ts:59-97 | base units to decimal and back are the same base units |
| `AmountText.DecimalRoundTrip` | ts/src/domain/amounts/index.ts:59-97 | an accepted decimal to base units and back is the same number |
| `AmountText.ToBaseUnitsTruncates` | ts/src/domain/sunswap/amount.ts:28-39 | the base units are the exact amount truncated toward zero |
| `AmountText.OtherInputs` | ts/src/domain/amounts/index.ts:59-97 | what becomes of any other text and of too many decimals |
| `AmountText.ExpansionIsExact` | ts/src/domain/sunswap/amount.ts:4-26 | the expansion is the plain decimal without superfluous zeros for mantissa times ten to the power, refused exactly beyond 1000 |
| `AmountText.ScientificIff` | ts/src/domain/sunswap/amount.ts:6-8 | exactly which texts are scientific notation, and their parts |
| `AmountText.OtherTextIsNotExpanded` | ts/src/domain/sunswap/amount.ts:7 | any other text comes back unchanged |
| `PriceText.ComparisonIsExact` | ts/src/domain/sunswap/decimal.ts:13-22 | the comparison is that of the rational numbers |
| `PriceText.ComparisonIsTransitive` | ts/src/domain/sunswap/decimal.ts:12-22 | it is a total order |
| `PriceText.ProductIsTruncated` | ts/src/domain/sunpump/market.ts:34-60 | the product text is the exact product truncated toward zero, without a negative zero |
| `PriceText.ProductIsEmptyIff` | ts/src/domain/sunpump/market.ts:36-38 | a product is empty exactly when a factor is not a decimal |
| `PriceText.TruncatedPriceIsExact` | ts/src/domain/sunswap/pair-price.ts:38-64 | the truncated text is the literal truncated toward zero, with exactly the given places |
| `PriceText.ReciprocalIsExact` | ts/src/domain/sunswap/pair-price.ts:30-36 | the reciprocal of the magnitude, truncated |
| `PriceText.QuotesNeverGain` | ts/src/domain/sunswap/pair-price.ts:12-28 | the two quotes of a pool swap base and quote, and their prices multiply to at most one |
| `PriceText.PricesAreQuotedIff` | ts/src/domain/sunswap/pair-price.ts:12-36 | exactly which pools have a price, for which quote, and what a rate that is no decimal gives |
| `DecimalText.TruncationIsUnique` | ts/src/domain/sunpump/market.ts:41-44 | the bounds used for truncation toward zero determine the result |
| `PriceText.ExponentIsExact` | ts/src/domain/sunswap/initial-price.ts:10-12 | the length estimate with its correction is the exact decimal exponent |
| `PriceText.InitialPriceIsTruncated` | ts/src/domain/sunswap/initial-price.ts:4-24 | with x = sqrtPrice^2 * 10^decimals0 / (2^192 * 10^decimals1) the text denotes eight digits times a power of ten that is at most x, and one digit more exceeds it; without superfluous zeros |
| `PriceText.UnitPriceIsAPowerOfTen` | ts/src/domain/sunswap/initial-price.ts:7-8 | at the square root 2^96 the price is exactly 10^(decimals0 - decimals1) |
| `PriceText.InitialPriceIsRefusedIff` | ts/src/domain/sunswap/initial-price.ts:5-9 | refused exactly beyond 77 decimals, and zero for zero |
| `Liquidity.MintIsTheLargestFair` | ts/src/domain/sunswap/liquidity.ts:91-106 | the LP amount is the largest that keeps both proportions |
| `Liquidity.MintingIsSafe` | ts/src/domain/sunswap/liquidity.ts:25-31 | redeeming the minted amount returns at most the deposit, before or after it, and no holder's redemption falls |
| `Liquidity.ExpectedLpRedeemsAtMostTheDeposit` | ts/src/domain/sunswap/liquidity.ts:91-106 | the same on the text the functions exchange, before and after the deposit and for any holder |
| `Liquidity.LpAmountOutcome` | ts/src/domain/sunswap/liquidity.ts:91-114 | none exactly for an empty pool, an error exactly for text that is no whole number, and else the largest fair amount |
| `Liquidity.RedemptionOutcome` | ts/src/domain/sunswap/liquidity.ts:25-31 | the share rounded down, and exactly when it fails |
| `Liquidity.PairingBackAndForth` | ts/src/domain/sunswap/liquidity.ts:73-89 | pairing across and back never exceeds the original, with a bound on the loss |
| `Liquidity.PairedBackIsAtMostTheGiven` | ts/src/domain/sunswap/liquidity.ts:73-89 | the same on text |
| `Liquidity.PairingOutcome` | ts/src/domain/sunswap/liquidity.ts:74-89 | the other side rounded down, and exactly when it fails |
| `Liquidity.PairedDepositMintsByTheDerivedSide` | ts/src/domain/sunswap/liquidity.ts:73-106 | a deposit paired by the reserves mints by the derived amount |
| `Liquidity.SlippageBounds` | ts/src/domain/sunswap/liquidity.ts:10-23 | the exact ten-thousandths, rounded toward zero; exactly when the lowered amount is a bound, that the raised one is, and that raising then lowering never gains |
| `Slippage.SlippageIsExact` | ts/src/domain/sunpump/curve.ts:22-43 | exactly which tolerances are accepted, and that the basis points are the same number |
| `Slippage.BipsRoundTrip` | ts/src/domain/sunpump/curve.ts:45-49 | basis points written and read back are the same exactly when they are within the accepted bounds, and refused otherwise |
| `Slippage.AcceptedToleranceKeepsHalf` | ts/src/domain/sunpump/curve.ts:39-41 | an accepted tolerance lowers an amount by at most half |
| `X402NetworkId.IdentityRoundTripIff` | ts/src/domain/x402/network-id.ts:22-35 | an identity is read back from its id exactly when the grammar can hold its number |
| `X402NetworkId.AcceptedIdRewritesIff` | ts/src/domain/x402/network-id.ts:19-35 | exactly which accepted ids name the same network in the family's own form |
| `X402NetworkId.LongTronIdHasNoOwnForm` | ts/src/domain/x402/network-id.ts:19-26 | long decimal TRON ids are accepted and have no form of their own |
| `X402NetworkId.SameNetworkIff` | ts/src/domain/x402/network-id.ts:46-55 | two ids are the same network exactly when family and number agree, in whatever radix |
| `X402NetworkId.IdIsAcceptedIff` | ts/src/domain/x402/network-id.ts:20-35 | an id is accepted exactly when, trimmed and in small letters, it is a namespace and a reference of the grammar; the identity is that number |
| `Text.LoweredIs` | ts/src/domain/wallet/label.ts:24-27 | small letters for capitals, position by position, and every other character as it was |
| `Text.TrimTakesSpaceOnly` | ts/src/domain/wallet/label.ts:24-27 | what trimming takes away is white space at the two ends |
| `Text.SpacesAre` | ts/src/domain/wallet/label.ts:24-27 | the white space and line ends, code point by code point |

## Left out

- HTTP, JSON-RPC, SDK clients, WebSockets, daemon forking, signals, Ledger transport, CLI parsing, prompts and
  output: I/O around the modelled logic.
- The file store: lock exclusion, atomic replacement of one file, an all-or-nothing batch and a journal with one
  commit point and idempotent recovery are taken as given; rollback copies and I/O errors are not modelled.
- Cryptography and address encodings: derivation, hashes and checksums are arbitrary functions, and path components
  from 2^31 on are refused; encryption is symbolic, a blob opens with the password it was sealed with and no other.
- Clocks: a reading is a parameter, whole nanoseconds for the deadline; an operation that reads the clock
  twice takes two readings. The deadline's resume closures are handles into a table.
- Asynchrony: the pacer's runs take turns as on one event loop; microtask order within a turn is not modelled.
- Case folding: letters outside ASCII are left as they are.
- Random ids: the numbers drawn are given; a command whose draws end before one is free has no effect.
- The wallet index: wallets of unknown source kinds are modelled on loading but not in the changes to the
  index; account indices are naturals and not text in the index; looking an account up by address or label is not
  modelled; the order of object members is that of a sequence.
- `Keystore.Keystore.Import`: whether BIP39 accepts a mnemonic, and what it encodes to, is given.
- `KeystoreHistories.EveryIndexedSecretIsOnDisk` and the other theorems on histories take it as given that derived
  addresses are valid and in canonical spelling, and that a Ledger path is not empty.
- `KeystoreHistories.NoHistoryHoldsAnAccountTwice`: watched addresses are in canonical spelling, as the watch command
  makes them.
- `BaiPayment.NoPaymentIsForgotten`: which amounts the numeric API can carry, and when two texts are one account, are
  given; the exchange itself fails with transport errors or the deadline only.
- Listing the legacy accounts of a seed, contact book, permits and router guards, portfolio totals, tick prices
  as floating point numbers, schemas, API mappers and network tables: data, display or single comparisons.
- `TypedData.NormalizeTypedData`: numbers are integers or not finite; members beyond those named are not kept by
  the source either.
- `TokenBook.Book.Add`: the document's version member is not modelled, nor which of several unreadable lists
  decides the error; every one of them makes the document invalid.
- `RegistrationMetadata.ParseMetadata`: parsing of the text into JSON is given.
- `RechargeList.List`: the server keeps one list during the two requests and reports its true total or none.
- `V4LiquidityReceipt.Decode`: results are numbers and not their decimal text; addresses are the hex of their
  hashes.
- `BaiRechargeFlow.Flow.Execute`: error details hold only the members the flow reads or writes; messages are
  not modelled.
- `PriceText.ComparisonIsExact`: other text than plain decimals, which callers exclude, is not modelled.
- `Ticks.AlignedIsNearest`: division is exact; the source rounds a double quotient, which gives the same for ticks
  below 2^52 in magnitude.
- `Ticks.AcceptedIffOnGrid`: the refusal of numbers that are not integers is not modelled.
