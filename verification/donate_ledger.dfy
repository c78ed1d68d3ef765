/** Properties of the donation account that span several calls: the
    one-shot initialisation, the fee split, what the deferred debit of a
    withdrawal does and does not protect, pagination, and the ledger
    invariant over any sequence of calls in any order. */
module DonateLedger {
  import opened Utils
  import opened Strings
  import opened Near
  import opened DonateContract

  /** A mutating call to the donation account, with its arguments; the
      continuations carry the status of the call they follow. */
  datatype Call =
    | InitCall(factoryAccount: AccountId)
    | DonateCall
    | OnDonateCall(status: int, amount: Amount)
    | WithdrawDonationsCall(amount: Amount)
    | OnDonationsWithdrawnCall(status: int, amount: Amount)

  datatype Invocation = Invocation(ctx: Context, call: Call)

  function Apply(s: State, inv: Invocation): Result<Step<State>, Error> {
    match inv.call
    case InitCall(factoryAccount) => Init(s, inv.ctx, factoryAccount)
    case DonateCall => Donate(s, inv.ctx)
    case OnDonateCall(status, amount) => OnDonate(s, inv.ctx, status, amount)
    case WithdrawDonationsCall(amount) => WithdrawDonations(s, inv.ctx, amount)
    case OnDonationsWithdrawnCall(status, amount) => OnDonationsWithdrawn(s, inv.ctx, status, amount)
  }

  /** The state after one invocation; an aborted call writes nothing. */
  function Next(s: State, inv: Invocation): State {
    match Apply(s, inv)
    case Ok(step) => step.state
    case Abort(_) => s
  }

  /** The state after a sequence of invocations, in the order the runtime
      happened to execute them. */
  function Run(s: State, trace: seq<Invocation>): State
    decreases |trace|
  {
    if trace == [] then s else Run(Next(s, trace[0]), trace[1..])
  }

  /** The amount an invocation actually debited: a withdrawal confirmation
      with success status that did not abort. */
  function DebitOf(s: State, inv: Invocation): nat {
    match inv.call
    case OnDonationsWithdrawnCall(status, amount) =>
      if status == STATUS_SUCCESSFUL && amount <= s.balance then amount else 0
    case _ => 0
  }

  /** Total debited by a sequence of invocations. */
  function Debited(s: State, trace: seq<Invocation>): nat
    decreases |trace|
  {
    if trace == [] then 0 else DebitOf(s, trace[0]) + Debited(Next(s, trace[0]), trace[1..])
  }

  /** Sum of the amounts of a list of donation records. */
  function Total(ds: seq<Donation>): nat {
    if ds == [] then 0 else Total(ds[..|ds| - 1]) + ds[|ds| - 1].amount
  }

  lemma TotalAppend(ds: seq<Donation>, d: Donation)
    ensures Total(ds + [d]) == Total(ds) + d.amount
  {
    assert (ds + [d])[..|ds + [d]| - 1] == ds;
  }

  /** One invocation keeps the ledger: earlier records are untouched, at
      most one record is appended, the balance moves by exactly the new
      record's amount minus the debit, and the factory reference, once
      set, stays. */
  lemma NextKeepsLedger(s: State, inv: Invocation)
    ensures var t := Next(s, inv);
      && |s.donations| <= |t.donations| <= |s.donations| + 1
      && t.donations[..|s.donations|] == s.donations
      && t.balance + DebitOf(s, inv) == s.balance + Total(t.donations) - Total(s.donations)
      && (IsInitialized(s) ==> t.factoryAccount == s.factoryAccount)
  {
    var t := Next(s, inv);
    if |t.donations| == |s.donations| + 1 {
      assert t.donations == s.donations + [t.donations[|s.donations|]];
      TotalAppend(s.donations, t.donations[|s.donations|]);
    } else {
      assert t.donations == s.donations;
    }
  }

  /** The ledger invariant over any interleaving: the records of the
      starting state are kept, and the balance equals the starting balance
      plus every donation confirmed since, minus every withdrawal
      confirmed since. */
  lemma {:induction false} RunKeepsLedger(s: State, trace: seq<Invocation>)
    ensures var t := Run(s, trace);
      && |s.donations| <= |t.donations|
      && t.donations[..|s.donations|] == s.donations
      && t.balance + Debited(s, trace) == s.balance + Total(t.donations) - Total(s.donations)
      && (IsInitialized(s) ==> t.factoryAccount == s.factoryAccount)
    decreases |trace|
  {
    if trace != [] {
      var n := Next(s, trace[0]);
      NextKeepsLedger(s, trace[0]);
      RunKeepsLedger(n, trace[1..]);
      var t := Run(s, trace);
      assert t == Run(n, trace[1..]);
      assert t.donations[..|s.donations|] == t.donations[..|n.donations|][..|s.donations|];
    }
  }

  /** From a fresh deployment, the balance is always the sum of confirmed
      donations less the confirmed withdrawals. */
  lemma BalanceIsDonationsLessWithdrawals(trace: seq<Invocation>)
    ensures Run(Initial, trace).balance + Debited(Initial, trace) == Total(Run(Initial, trace).donations)
  {
    RunKeepsLedger(Initial, trace);
  }

  /** Initialisation happens at most once: after a successful `init`, every
      later `init` aborts with `AlreadyInitialized`, whoever calls it and
      whatever it attaches, and the factory reference never changes. */
  lemma {:induction false} InitIsOneShot(s: State, ctx: Context, factoryAccount: AccountId, trace: seq<Invocation>, ctx2: Context, other: AccountId)
    requires Init(s, ctx, factoryAccount).Ok?
    ensures var t := Run(Init(s, ctx, factoryAccount).value.state, trace);
      && t.factoryAccount == Some(factoryAccount)
      && Init(t, ctx2, other) == Abort(AlreadyInitialized)
  {
    RunKeepsLedger(Init(s, ctx, factoryAccount).value.state, trace);
  }

  /** For a one-NEAR donation the fee is 10^22 and 99 * 10^22 is credited. */
  lemma OneNearSplit()
    ensures SplitDeposit(ONE_NEAR) == (10_000_000_000_000_000_000_000, 990_000_000_000_000_000_000_000)
  {
  }

  /** The entry steps schedule but never write: `donate` and
      `withdraw_donations` leave balance and records alone, and only the
      continuations change them. */
  lemma {:induction false} DispatchDoesNotWrite(s: State, inv: Invocation)
    requires inv.call.DonateCall? || inv.call.WithdrawDonationsCall?
    ensures Next(s, inv) == s
  {
    match inv.call
    case DonateCall =>
      assert Donate(s, inv.ctx).Ok? ==> Donate(s, inv.ctx).value.state == s;
    case WithdrawDonationsCall(amount) =>
      assert WithdrawDonations(s, inv.ctx, amount).Ok? ==> WithdrawDonations(s, inv.ctx, amount).value.state == s;
  }

  /** A rejected withdrawal (not initialised, not the parent, or too much)
      writes nothing and schedules nothing. */
  lemma RejectedWithdrawalIsInert(s: State, ctx: Context, amount: Amount)
    requires !IsInitialized(s) || !IsParent(ctx) || amount > s.balance
    ensures WithdrawDonations(s, ctx, amount).Abort?
    ensures Next(s, Invocation(ctx, WithdrawDonationsCall(amount))) == s
  {
  }

  /** The balance check happens at dispatch only. Two withdrawals of the
      whole balance both pass it; once the first is confirmed, the second
      confirmation would take the balance below zero, which the model
      reports as `BalanceUnderflow`. */
  lemma DeferredDebitRace(s: State, ctx: Context)
    requires IsInitialized(s) && IsParent(ctx) && s.balance > 0
    ensures WithdrawDonations(s, ctx, s.balance).Ok?
    ensures var afterFirst := Next(s, Invocation(ctx, OnDonationsWithdrawnCall(STATUS_SUCCESSFUL, s.balance)));
      && afterFirst.balance == 0
      && OnDonationsWithdrawn(afterFirst, ctx, STATUS_SUCCESSFUL, s.balance) == Abort(BalanceUnderflow)
  {
  }

  /** The parent test is a raw string suffix: any account whose name is a
      tail of the contract's name passes it, such as `g.near` for
      `donate.myorg.near`. */
  lemma ParentIsRawSuffix(ctx: Context)
    ensures IsParent(ctx) <==> exists front :: ctx.contractName == front + ctx.predecessor
    ensures ctx.contractName == "donate.myorg.near" && ctx.predecessor == "g.near" ==> IsParent(ctx)
    ensures ctx.contractName == "donate.myorg.near" && ctx.predecessor == "other.near" ==> !IsParent(ctx)
  {
    EndsWithIff(ctx.contractName, ctx.predecessor);
    if ctx.contractName == "donate.myorg.near" && ctx.predecessor == "g.near" {
      assert ctx.contractName[|ctx.contractName| - |ctx.predecessor|..] == "g.near";
    }
    if ctx.contractName == "donate.myorg.near" && ctx.predecessor == "other.near" {
      assert ctx.contractName[|ctx.contractName| - |ctx.predecessor|..][0] == 'm';
    }
  }

  /** The continuations do not look at who calls them: the withdrawal
      confirmation gives the same result for any two contexts. */
  lemma ContinuationIgnoresCaller(s: State, ctx1: Context, ctx2: Context, status: int, amount: Amount)
    ensures OnDonationsWithdrawn(s, ctx1, status, amount) == OnDonationsWithdrawn(s, ctx2, status, amount)
    ensures OnDonate(s, ctx1, status, amount).Ok? == OnDonate(s, ctx2, status, amount).Ok?
  {
  }

  /** Confirmations of two donations commute in their effect on the
      balance, so the order in which the runtime resolves them does not
      matter to it. */
  lemma DonationConfirmationsCommute(s: State, ctx1: Context, a: Amount, ctx2: Context, b: Amount)
    requires s.balance + a + b < U128_LIMIT
    ensures var ab := Next(Next(s, Invocation(ctx1, OnDonateCall(STATUS_SUCCESSFUL, a))), Invocation(ctx2, OnDonateCall(STATUS_SUCCESSFUL, b)));
      var ba := Next(Next(s, Invocation(ctx2, OnDonateCall(STATUS_SUCCESSFUL, b))), Invocation(ctx1, OnDonateCall(STATUS_SUCCESSFUL, a)));
      ab.balance == ba.balance == s.balance + a + b && |ab.donations| == |ba.donations| == |s.donations| + 2
  {
  }

  /** Consecutive pages are adjacent: when both exist, page `p + 1` starts
      right after the last record of page `p`, which is always full. */
  lemma PagesAreAdjacent(s: State, p: nat)
    requires DonationsPage(s, p).Ok? && DonationsPage(s, p + 1).Ok?
    ensures |DonationsPage(s, p).value| == PAGE_SIZE
    ensures DonationsPage(s, p).value + DonationsPage(s, p + 1).value
         == s.donations[p * PAGE_SIZE..(p + 1) * PAGE_SIZE + |DonationsPage(s, p + 1).value|]
  {
    var a := DonationsPage(s, p).value;
    var b := DonationsPage(s, p + 1).value;
    var whole := s.donations[p * PAGE_SIZE..(p + 1) * PAGE_SIZE + |b|];
    assert |a + b| == |whole|;
    forall i | 0 <= i < |whole|
      ensures (a + b)[i] == whole[i]
    {
      if i >= |a| {
        assert (a + b)[i] == b[i - |a|] == s.donations[(p + 1) * PAGE_SIZE + (i - |a|)];
      }
    }
  }

  /** When the number of records is one more than a multiple of the page
      size (one record, 26 records, ...), the last record lies on no page:
      the page that would hold it alone does not exist, and every earlier
      page stops before it. */
  lemma LoneLastRecordIsOnNoPage(s: State, page: nat)
    requires |s.donations| % PAGE_SIZE == 1
    ensures DonationsPage(s, page).Ok? ==> page * PAGE_SIZE + |DonationsPage(s, page).value| < |s.donations|
  {
    var n := |s.donations|;
    var k := n / PAGE_SIZE;
    assert n == k * PAGE_SIZE + 1;
    if DonationsPage(s, page).Ok? {
      assert page * PAGE_SIZE + 1 < n;
      assert page < k;
      assert page * PAGE_SIZE + PAGE_SIZE <= k * PAGE_SIZE;
    }
  }

  /** An empty list or a list of one record has no page: every page number
      is rejected. */
  lemma ShortListHasNoPage(s: State, page: nat)
    requires |s.donations| <= 1
    ensures DonationsPage(s, page).Abort?
  {
  }

  /** End to end: a donation account initialised with three NEAR receives
      one NEAR; the fee of 10^22 goes to the factory and, once the fee
      call succeeds, 0.99 NEAR is credited and recorded. The single record
      cannot be listed, though: a page of one record does not exist. */
  lemma DonationScenario(factory: AccountId, deployCtx: Context, donorCtx: Context, callbackCtx: Context)
    requires deployCtx.attachedDeposit == MIN_ACCOUNT_BALANCE
    requires donorCtx.attachedDeposit == ONE_NEAR
    ensures Init(Initial, deployCtx, factory).Ok?
    ensures var s1 := Init(Initial, deployCtx, factory).value.state;
      var net := 990_000_000_000_000_000_000_000;
      && Donate(s1, donorCtx).Ok?
      && Donate(s1, donorCtx).value.scheduled[0]
         == Batch(factory, [FunctionCallAction("deposit_fees", EmptyArgs, 10_000_000_000_000_000_000_000)])
      && Donate(s1, donorCtx).value.scheduled[1]
         == Batch(donorCtx.contractName, [FunctionCallAction("on_donate", AmountArgs(net), 0)])
      && var s2 := Next(s1, Invocation(callbackCtx, OnDonateCall(STATUS_SUCCESSFUL, net)));
      && GetBalance(s2) == Ok(net)
      && s2.donations == [Donation(callbackCtx.predecessor, net, callbackCtx.blockTimestamp)]
      && DonationsPage(s2, 0) == Abort(PageDoesNotExist)
  {
    OneNearSplit();
  }
}
