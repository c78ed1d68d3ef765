/** The factory contract (`src/factory/assembly/index.ts`): it provisions
    one donation account per caller, named `"donate." + caller`, and keeps
    the set of accounts whose provisioning was confirmed. */
module FactoryContract {
  import opened Utils
  import opened Strings
  import opened Near

  /** The persisted registry of provisioned donation accounts. */
  datatype State = State(accounts: set<AccountId>)

  /** A freshly deployed factory. */
  const Initial: State := State({})

  datatype Error =
    | AlreadyInitialized
    | BelowMinimumAccountBalance
    | NotInitialized
    | InvalidAccountName
    | AccountAlreadyExists

  /** The prefix of every donation account name. */
  const DONATE_PREFIX: string := "donate."

  /** The factory reports itself initialised whatever its state. */
  function IsInitialized(s: State): bool {
    true
  }

  function HasAccount(s: State, account: AccountId): bool {
    account in s.accounts
  }

  /** `is_donate_contract()`: the caller's name starts with `"donate."`. */
  predicate IsDonateContract(ctx: Context) {
    StartsWith(ctx.predecessor, DONATE_PREFIX)
  }

  /** The donation account name derived from its owner: it starts with the
      prefix, ends with the owner, and determines the owner. */
  function DonateAccountName(owner: AccountId): (name: AccountId)
    ensures StartsWith(name, DONATE_PREFIX) && EndsWith(name, owner)
    ensures |name| == |DONATE_PREFIX| + |owner|
    ensures name[|DONATE_PREFIX|..] == owner
  {
    var name := DONATE_PREFIX + owner;
    Strings.ConcatStartsEnds(DONATE_PREFIX, owner);
    name
  }

  /** `init()`: because the factory always reports itself initialised, its
      guard always fires and `init` always aborts. */
  function Init(s: State, ctx: Context): (r: Result<Step<State>, Error>)
    ensures r == Abort(AlreadyInitialized)
  {
    if IsInitialized(s) then Abort(AlreadyInitialized)
    else if ctx.attachedDeposit < MIN_ACCOUNT_BALANCE then Abort(BelowMinimumAccountBalance)
    else Ok(Step(s, []))
  }

  /** The batch that provisions a donation account, in order: create it,
      deploy the donation contract, give the signer a full-access key, and
      call its `init` with the whole attached deposit. */
  function ProvisioningBatch(account: AccountId, ctx: Context): Batch {
    Batch(account, [
      CreateAccountAction,
      DeployContractAction,
      AddFullAccessKeyAction(ctx.senderPublicKey),
      FunctionCallAction("init", EmptyArgs, ctx.attachedDeposit)])
  }

  /** `create_account()`. The account-name grammar of the runtime is the
      parameter `isValidAccountId`. The registry itself is not touched;
      only `on_account_created` adds to it. */
  function CreateAccount(s: State, ctx: Context, isValidAccountId: AccountId -> bool): (r: Result<Step<State>, Error>)
    ensures var account := DonateAccountName(ctx.predecessor);
      r.Ok? <==> ctx.attachedDeposit >= MIN_ACCOUNT_BALANCE && isValidAccountId(account) && account !in s.accounts
    ensures ctx.attachedDeposit < MIN_ACCOUNT_BALANCE ==> r == Abort(BelowMinimumAccountBalance)
    ensures var account := DonateAccountName(ctx.predecessor);
      ctx.attachedDeposit >= MIN_ACCOUNT_BALANCE && !isValidAccountId(account) ==> r == Abort(InvalidAccountName)
    ensures var account := DonateAccountName(ctx.predecessor);
      (ctx.attachedDeposit >= MIN_ACCOUNT_BALANCE && isValidAccountId(account) && account in s.accounts)
      ==> r == Abort(AccountAlreadyExists)
    ensures r.Ok? ==> r.value.state == s
    ensures r.Ok? ==>
      var account := DonateAccountName(ctx.predecessor);
      && |r.value.scheduled| == 2
      && r.value.scheduled[0].receiver == account
      && r.value.scheduled[0].actions == [
           CreateAccountAction,
           DeployContractAction,
           AddFullAccessKeyAction(ctx.senderPublicKey),
           FunctionCallAction("init", EmptyArgs, ctx.attachedDeposit)]
      && r.value.scheduled[1] == Batch(ctx.contractName, [FunctionCallAction("on_account_created", AccountArgs(account), 0)])
  {
    if !IsInitialized(s) then Abort(NotInitialized)
    else if ctx.attachedDeposit < MIN_ACCOUNT_BALANCE then Abort(BelowMinimumAccountBalance)
    else
      var account := DonateAccountName(ctx.predecessor);
      if !isValidAccountId(account) then Abort(InvalidAccountName)
      else if HasAccount(s, account) then Abort(AccountAlreadyExists)
      else
        Ok(Step(s, [
          ProvisioningBatch(account, ctx),
          Batch(ctx.contractName, [FunctionCallAction("on_account_created", AccountArgs(account), 0)])]))
  }

  /** `on_account_created(account)`: on success the account joins the
      registry (a no-op when it is already there); any other status leaves
      the registry as it was. The caller is not checked. */
  function OnAccountCreated(s: State, ctx: Context, status: int, account: AccountId): (r: Result<Step<State>, Error>)
    ensures r.Ok? && r.value.scheduled == []
    ensures s.accounts <= r.value.state.accounts
    ensures |r.value.state.accounts| <= |s.accounts| + 1
    ensures status == STATUS_SUCCESSFUL ==> r.value.state.accounts == s.accounts + {account}
    ensures status == STATUS_SUCCESSFUL && account in s.accounts ==> r.value.state == s
    ensures status != STATUS_SUCCESSFUL ==> r.value.state == s
  {
    match Outcome(status)
    case Successful =>
      Ok(Step(s.(accounts := s.accounts + {account}), []))
    case _ =>
      Ok(Step(s, []))
  }

  /** `get_accounts()`: the registry as a list, each account exactly once. */
  method GetAccounts(s: State) returns (r: seq<AccountId>)
    ensures forall a :: a in r <==> a in s.accounts
    ensures forall i, j :: 0 <= i < j < |r| ==> r[i] != r[j]
    ensures |r| == |s.accounts|
  {
    r := [];
    var rest := s.accounts;
    while rest != {}
      invariant rest <= s.accounts
      invariant forall a :: a in r <==> a in s.accounts && a !in rest
      invariant forall i, j :: 0 <= i < j < |r| ==> r[i] != r[j]
      invariant |r| + |rest| == |s.accounts|
      decreases |rest|
    {
      var a :| a in rest;
      r := r + [a];
      rest := rest - {a};
    }
  }
}
