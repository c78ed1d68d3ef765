/** Properties of the factory that span several calls: the registry only
    grows, and grows by exactly the confirmed provisionings; an owner can
    have one donation account; and the name the factory derives is the
    one the donation account later trusts as its parent. */
module FactoryRegistry {
  import opened Utils
  import opened Strings
  import opened Near
  import opened FactoryContract
  import DonateContract

  /** A mutating call to the factory; the continuation carries the status
      of the provisioning batch it follows. */
  datatype Call =
    | InitCall
    | CreateAccountCall
    | OnAccountCreatedCall(status: int, account: AccountId)

  datatype Invocation = Invocation(ctx: Context, call: Call)

  function Apply(s: State, inv: Invocation, isValidAccountId: AccountId -> bool): Result<Step<State>, Error> {
    match inv.call
    case InitCall => Init(s, inv.ctx)
    case CreateAccountCall => CreateAccount(s, inv.ctx, isValidAccountId)
    case OnAccountCreatedCall(status, account) => OnAccountCreated(s, inv.ctx, status, account)
  }

  /** The state after one invocation; an aborted call writes nothing. */
  function Next(s: State, inv: Invocation, isValidAccountId: AccountId -> bool): State {
    match Apply(s, inv, isValidAccountId)
    case Ok(step) => step.state
    case Abort(_) => s
  }

  function Run(s: State, trace: seq<Invocation>, isValidAccountId: AccountId -> bool): State
    decreases |trace|
  {
    if trace == [] then s else Run(Next(s, trace[0], isValidAccountId), trace[1..], isValidAccountId)
  }

  /** The accounts whose provisioning a trace confirms with success status. */
  function Confirmed(trace: seq<Invocation>): set<AccountId>
    decreases |trace|
  {
    if trace == [] then {}
    else
      var here := match trace[0].call
        case OnAccountCreatedCall(status, account) =>
          if status == STATUS_SUCCESSFUL then {account} else {}
        case _ => {};
      here + Confirmed(trace[1..])
  }

  /** Over any sequence of calls the registry is the starting registry
      plus exactly the confirmed accounts: nothing is ever removed, and it
      grows by at most one account per call. */
  lemma {:induction false} RegistryIsConfirmedAccounts(s: State, trace: seq<Invocation>, isValidAccountId: AccountId -> bool)
    ensures Run(s, trace, isValidAccountId).accounts == s.accounts + Confirmed(trace)
    ensures |Run(s, trace, isValidAccountId).accounts| <= |s.accounts| + |trace|
    decreases |trace|
  {
    if trace != [] {
      var n := Next(s, trace[0], isValidAccountId);
      NextAddsConfirmed(s, trace[0], isValidAccountId);
      RegistryIsConfirmedAccounts(n, trace[1..], isValidAccountId);
      assert Confirmed(trace) == Confirmed([trace[0]]) + Confirmed(trace[1..]) by {
        assert [trace[0]][1..] == [];
      }
    }
  }

  /** One invocation adds exactly the account it confirms, if any. */
  lemma NextAddsConfirmed(s: State, inv: Invocation, isValidAccountId: AccountId -> bool)
    ensures Next(s, inv, isValidAccountId).accounts == s.accounts + Confirmed([inv])
    ensures |Next(s, inv, isValidAccountId).accounts| <= |s.accounts| + 1
  {
    assert [inv][1..] == [];
    match inv.call
    case InitCall =>
    case CreateAccountCall =>
      assert CreateAccount(s, inv.ctx, isValidAccountId).Ok? ==> CreateAccount(s, inv.ctx, isValidAccountId).value.state == s;
    case OnAccountCreatedCall(status, account) =>
  }

  /** The registry only grows. */
  lemma RegistryOnlyGrows(s: State, trace: seq<Invocation>, isValidAccountId: AccountId -> bool)
    ensures s.accounts <= Run(s, trace, isValidAccountId).accounts
  {
    RegistryIsConfirmedAccounts(s, trace, isValidAccountId);
  }

  /** Once the provisioning of an owner's account has been confirmed,
      every later `create_account` by that owner that passes the stake and
      name checks aborts as a duplicate. */
  lemma DuplicateAfterConfirmation(s: State, trace: seq<Invocation>, ctx: Context, isValidAccountId: AccountId -> bool)
    requires DonateAccountName(ctx.predecessor) in Confirmed(trace)
    requires ctx.attachedDeposit >= MIN_ACCOUNT_BALANCE && isValidAccountId(DonateAccountName(ctx.predecessor))
    ensures CreateAccount(Run(s, trace, isValidAccountId), ctx, isValidAccountId) == Abort(AccountAlreadyExists)
  {
    RegistryIsConfirmedAccounts(s, trace, isValidAccountId);
  }

  /** Different owners get different donation accounts. */
  lemma DonateAccountNameIsInjective(a: AccountId, b: AccountId)
    ensures DonateAccountName(a) == DonateAccountName(b) <==> a == b
  {
    if DonateAccountName(a) == DonateAccountName(b) {
      assert a == DonateAccountName(a)[|DONATE_PREFIX|..];
    }
  }

  /** The caller test of the factory is a bare prefix test: any account
      named `"donate." + x` passes it, registered or not, and in particular
      every name the factory derives does. */
  lemma DonateContractIsPrefixTest(ctx: Context, owner: AccountId)
    ensures IsDonateContract(ctx) <==> exists x :: ctx.predecessor == DONATE_PREFIX + x
    ensures ctx.predecessor == DonateAccountName(owner) ==> IsDonateContract(ctx)
  {
    StartsWithIff(ctx.predecessor, DONATE_PREFIX);
  }

  /** The owner a donation account was provisioned for passes that
      account's parent test, so it may withdraw. */
  lemma OwnerIsParentOfItsAccount(ctx: Context, owner: AccountId)
    requires ctx.contractName == DonateAccountName(owner) && ctx.predecessor == owner
    ensures DonateContract.IsParent(ctx)
  {
  }

  /** The provisioning continuation does not look at who calls it. */
  lemma ContinuationIgnoresCaller(s: State, ctx1: Context, ctx2: Context, status: int, account: AccountId)
    ensures OnAccountCreated(s, ctx1, status, account) == OnAccountCreated(s, ctx2, status, account)
  {
  }
}
