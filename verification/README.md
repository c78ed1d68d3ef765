# near-donate, modelled in Dafny

This project models the two contracts of the near-donate platform on the
NEAR blockchain:

- the **donation account**, one per organisation. It accepts donations,
  forwards a 1% platform fee to the factory, records each confirmed
  donation, and lets its parent account withdraw the balance;
- the **factory**, which provisions donation accounts named
  `"donate." + owner` and keeps a registry of the ones it provisioned.

Each public entry point is a pure step function. It takes the persisted
state and the call context (`Near.Context`: caller, contract name, signer
key, attached deposit, block time) and returns either an abort or a
`Near.Step`: the new state plus the batches of actions it scheduled. An
abort stands for a failed `assert`, so nothing is written and nothing is
scheduled.

The runtime's promises are explicit. An entry point such as `donate` or
`withdraw_donations` only schedules calls. Its continuation
(`on_donate`, `on_donations_withdrawn`, `on_account_created`) is a
separate step. It takes the status of the call it follows as an ordinary
integer input: 0 not ready, 1 success, 2 failure, anything else
unexpected. Amounts are `nat` bounded below 2^128 (`Utils.Amount`).
Timestamps are bounded below 2^64.

Files, one module each:

- `utils.dfy`: constants and value types;
- `strings.dfy`: `startsWith` and `endsWith`;
- `near.dfy`: the runtime vocabulary;
- `donate.dfy`: the donation account;
- `donate_ledger.dfy`: properties over sequences of calls to it;
- `factory.dfy`: the factory;
- `factory_registry.dfy`: properties over sequences of calls to the factory.

`DonateLedger.Run` and `FactoryRegistry.Run` apply any sequence of calls
in any order. This is how the model covers continuations that resolve in
an order the contracts do not control.

## Model

| member | source | states |
|---|---|---|
| `Utils.ConstantValues` | src/utils.ts:13-19 | ONE_NEAR is 10^24, the account minimum is 3 NEAR, the donation minimum is 1 NEAR, the fee divisor is 100 (nonzero), the page size is 25; all fit in a u128 |
| `DonateContract.Init` | src/donate/assembly/index.ts:22-35 | init succeeds iff the contract is not yet initialised and at least 3 NEAR is attached; the first failing guard gives the error; on success the factory reference is set, the ledger is untouched and nothing is scheduled |
| `DonateLedger.InitIsOneShot` | src/donate/assembly/index.ts:169-171 | `DonateContract.IsInitialized` holds once the factory reference is set; after a successful init, whatever calls follow, the factory reference stays what init set and every later init aborts with AlreadyInitialized |
| `DonateContract.SplitDeposit` | src/donate/assembly/index.ts:45-46 | fee plus net is exactly the deposit; the fee is the deposit divided by 100, rounded down, so the remainder stays with the net amount |
| `DonateLedger.OneNearSplit` | src/utils.ts:13-17 | a 1 NEAR donation splits into a fee of 10^22 and a net amount of 99 * 10^22 |
| `DonateContract.Donate` | src/donate/assembly/index.ts:37-62 | donate succeeds iff the contract is initialised and at least 1 NEAR is attached; it leaves the state unchanged and schedules deposit_fees(fee) on the factory, then on_donate(net) on itself |
| `DonateLedger.DispatchDoesNotWrite` | src/donate/assembly/index.ts:48-61 | donate and withdraw_donations never change balance or records, whether they succeed or abort |
| `DonateContract.OnDonate` | src/donate/assembly/index.ts:64-90 | with status 1 the balance grows by exactly the amount and one record (predecessor of the continuation, amount, block time) is appended, earlier records kept; any other status changes nothing |
| `DonateLedger.DonationConfirmationsCommute` | src/donate/assembly/index.ts:75-80 | two successful donation confirmations give the same balance and record count in either order |
| `DonateContract.DonationsPage` | src/donate/assembly/index.ts:98-112 | page p exists iff the contract is initialised and 25p + 1 < number of records; it then holds the records from index 25p on, between 2 and 25 of them, as many as remain up to 25 |
| `DonateContract.GetDonations` | src/donate/assembly/index.ts:106-111 | the copying loop returns exactly the page DonationsPage describes, including its errors |
| `DonateLedger.PagesAreAdjacent` | src/donate/assembly/index.ts:101-102 | when pages p and p+1 both exist, page p is full and the two together are one contiguous run of records |
| `DonateLedger.LoneLastRecordIsOnNoPage` | src/donate/assembly/index.ts:101-104 | when the record count is 1 more than a multiple of 25, no existing page reaches the last record, so a single record is never listed |
| `DonateLedger.ShortListHasNoPage` | src/donate/assembly/index.ts:101-104 | an empty list or a list of one record has no page at all: every page number aborts |
| `DonateContract.GetBalance` | src/donate/assembly/index.ts:114-118 | returns the balance iff the contract is initialised, NotInitialized otherwise |
| `DonateContract.WithdrawDonations` | src/donate/assembly/index.ts:120-140 | succeeds iff initialised, called by a parent, and amount at most the balance (errors in that order); leaves the state unchanged and schedules a transfer of amount to the caller, then on_donations_withdrawn(amount) |
| `DonateLedger.RejectedWithdrawalIsInert` | src/donate/assembly/index.ts:121-127 | a withdrawal that fails any of the three checks aborts and leaves the state as it was |
| `DonateContract.OnDonationsWithdrawn` | src/donate/assembly/index.ts:142-167 | with status 1 the balance drops by exactly the amount, or the call aborts when that would go below zero; any other status changes nothing; records are never touched |
| `DonateLedger.DeferredDebitRace` | src/donate/assembly/index.ts:124-156 | two withdrawals of the whole balance both pass the dispatch check; after the first is confirmed the second confirmation would underflow |
| `DonateLedger.ParentIsRawSuffix` | src/donate/assembly/index.ts:177-179 | `DonateContract.IsParent` holds iff the contract name is some string followed by the caller's name; g.near passes for donate.myorg.near, other.near does not |
| `Strings.EndsWithIff` | src/donate/assembly/index.ts:178 | endsWith holds iff the string is some front followed by the suffix |
| `Strings.StartsWithIff` | src/factory/assembly/index.ts:112 | startsWith holds iff the string is the prefix followed by some rest |
| `DonateLedger.ContinuationIgnoresCaller` | src/donate/assembly/index.ts:142-157 | on_donations_withdrawn gives the same result for every caller, and whether on_donate succeeds does not depend on the caller either |
| `DonateLedger.RunKeepsLedger` | src/donate/assembly/index.ts:64-167 | over any sequence of calls, earlier records are kept unchanged, the balance equals the start balance plus the confirmed donations since minus the confirmed withdrawals since, and a set factory reference never changes |
| `DonateLedger.BalanceIsDonationsLessWithdrawals` | src/donate/assembly/index.ts:17-20 | from a fresh deployment, balance plus confirmed withdrawals always equals the sum of the recorded donations |
| `DonateLedger.DonationScenario` | src/donate/assembly/index.ts:22-112 | init with 3 NEAR, then a 1 NEAR donation: 10^22 goes to the factory's deposit_fees; after success the balance is 0.99 NEAR with one record, and page 0 does not exist |
| `FactoryContract.Init` | src/factory/assembly/index.ts:23-34 | the factory's init always aborts with AlreadyInitialized, because `FactoryContract.IsInitialized` (is_initialized, lines 103-105) is constantly true |
| `FactoryContract.DonateAccountName` | src/factory/assembly/index.ts:45 | the derived name starts with "donate.", ends with the caller, and what follows the prefix is exactly the caller |
| `FactoryRegistry.DonateAccountNameIsInjective` | src/factory/assembly/index.ts:45 | two callers get the same derived name iff they are the same caller |
| `FactoryContract.CreateAccount` | src/factory/assembly/index.ts:36-70 | succeeds iff at least 3 NEAR is attached, the derived name is valid and not registered (errors in that order); leaves the registry unchanged and schedules create, deploy, add full-access key, init with the whole deposit on the derived name, then on_account_created(name) |
| `FactoryContract.OnAccountCreated` | src/factory/assembly/index.ts:72-97 | with status 1 the name joins the registry, a no-op when present, growing it by at most one; any other status leaves it unchanged; it never aborts |
| `FactoryRegistry.ContinuationIgnoresCaller` | src/factory/assembly/index.ts:72-86 | on_account_created gives the same result for every caller |
| `FactoryContract.GetAccounts` | src/factory/assembly/index.ts:99-101 | returns every registered account exactly once and nothing else |
| `FactoryRegistry.RegistryIsConfirmedAccounts` | src/factory/assembly/index.ts:78-96 | over any sequence of calls the registry is the starting registry plus exactly the names confirmed with status 1, growing by at most one per call |
| `FactoryRegistry.RegistryOnlyGrows` | src/factory/assembly/index.ts:21 | no sequence of calls removes a registered account |
| `FactoryRegistry.DuplicateAfterConfirmation` | src/factory/assembly/index.ts:45-48 | once a caller's account is confirmed, a later create_account by that caller that passes the stake and name checks aborts with AccountAlreadyExists, because `FactoryContract.HasAccount` (has_account, lines 119-121) is registry membership |
| `FactoryRegistry.DonateContractIsPrefixTest` | src/factory/assembly/index.ts:111-113 | `FactoryContract.IsDonateContract` holds iff the caller is "donate." followed by anything, registered or not; every derived name passes it |
| `FactoryRegistry.OwnerIsParentOfItsAccount` | src/donate/assembly/index.ts:177-179 | the owner a donation account was derived from passes that account's parent test |

## Left out

- Gas (`XCC_GAS`) and logging: they do not affect state or control flow.
- The deployed program bytes (`CODE`) and the base58 decoding of the signer key. The batch records a deploy action and the signer key string as given.
- Whether the new account's `init` accepts the `"{}"` argument the factory passes. The model only records the call.
- `env.isValidAccountID` stays uninterpreted: `FactoryContract.CreateAccount` takes it as a parameter.
- Persistent storage (`PersistentVector`, `PersistentSet`) is modelled as an immutable sequence and set.
- A continuation called directly, outside a promise chain, has no promise result to read. The model always supplies a status.
- Fee deposit, fee withdrawal and owner sets: the factory contract defines no `deposit_fees` method (nor any fee or owner logic). So the fee call that `donate` schedules targets a method the factory lacks; as the code stands it would fail, and `on_donate` would then see status 2 and credit nothing. The model records the scheduled call only.
- The argument wrapper classes (`DonateArgs`, `DonationsWithdrawnArgs`, `AccountCreatedArgs`) are modelled as `Near.Args`. `DonateArgs` and `AccountCreatedArgs` are imported but never defined.
- `assert_called_by_donate_contract` is never called by the factory; only its predicate `IsDonateContract` is modelled.
- `DonateContract.GetDonations` and `DonateContract.DonationsPage` use unbounded integers. The u32 `page`, the i32 `PAGE_SIZE` and the `f64` `Math.min` of the source are not modelled, so a `page * 25` that wraps in 32 bits is not covered.
- `get_donations` declares `page: u32 = 0`: a call that omits `page` asks for page 0. The model always takes `page` explicitly.
- `DonateContract.OnDonate` reports an addition that leaves the u128 range as an abort (`BalanceOverflow`). How `u128.add` behaves there depends on the u128 library, which is not part of this model.
- `DonateContract.OnDonationsWithdrawn` reports a subtraction below zero as an abort (`BalanceUnderflow`) for the same reason. `DonateLedger.DeferredDebitRace` shows this case is reachable.
- The unit tests and the sandbox tests call methods that do not exist in these contracts, so they are not modelled.

Behaviour of the code that a reader may not expect:

- the parent test is a raw `endsWith`, not a dot-delimited suffix;
- a list holding a single donation cannot be listed, because `get_donations` requires `start < end`. So `DonateLedger.DonationScenario` ends with `PageDoesNotExist`, not with one record;
- the factory's `init` always aborts;
- the donor recorded by `on_donate` is the predecessor of the continuation call, not of `donate`. For a callback this is normally the donation account itself.
