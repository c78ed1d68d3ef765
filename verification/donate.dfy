/** The donation account contract (`src/donate/assembly/index.ts`).
    Every public entry point is a step function from the persisted state
    and the call context to an abort or a `Step`. The two continuations,
    `on_donate` and `on_donations_withdrawn`, take the status of the call
    they follow as an ordinary argument. */
module DonateContract {
  import opened Utils
  import opened Strings
  import opened Near

  /** One confirmed donation; never changed once appended. */
  datatype Donation = Donation(donor: AccountId, amount: Amount, timestamp: Timestamp)

  /** The persisted fields of the contract. `factoryAccount` is `None`
      until `init` has run. */
  datatype State = State(
    factoryAccount: Option<AccountId>,
    donations: seq<Donation>,
    balance: Amount)

  /** A freshly deployed contract. */
  const Initial: State := State(None, [], 0)

  /** Why an entry point aborted, one per `assert` of the contract and one
      per out-of-range `u128` result. */
  datatype Error =
    | AlreadyInitialized
    | BelowMinimumAccountBalance
    | NotInitialized
    | BelowMinimumDonation
    | PageDoesNotExist
    | NotCalledByParent
    | AmountExceedsBalance
    | BalanceOverflow
    | BalanceUnderflow

  predicate IsInitialized(s: State) {
    s.factoryAccount.Some?
  }

  /** The caller counts as the parent when the contract's name ends with
      the caller's name, character for character: no dot is required at
      the seam. */
  predicate IsParent(ctx: Context) {
    EndsWith(ctx.contractName, ctx.predecessor)
  }

  /** `init(factoryAccount)`: one-shot, and only with the storage stake attached. */
  function Init(s: State, ctx: Context, factoryAccount: AccountId): (r: Result<Step<State>, Error>)
    ensures r.Ok? <==> !IsInitialized(s) && ctx.attachedDeposit >= MIN_ACCOUNT_BALANCE
    ensures IsInitialized(s) ==> r == Abort(AlreadyInitialized)
    ensures !IsInitialized(s) && ctx.attachedDeposit < MIN_ACCOUNT_BALANCE ==> r == Abort(BelowMinimumAccountBalance)
    ensures r.Ok? ==> IsInitialized(r.value.state) && r.value.state.factoryAccount == Some(factoryAccount)
    ensures r.Ok? ==> r.value.state.donations == s.donations && r.value.state.balance == s.balance
    ensures r.Ok? ==> r.value.scheduled == []
  {
    if IsInitialized(s) then Abort(AlreadyInitialized)
    else if ctx.attachedDeposit < MIN_ACCOUNT_BALANCE then Abort(BelowMinimumAccountBalance)
    else Ok(Step(s.(factoryAccount := Some(factoryAccount)), []))
  }

  /** The platform fee of a deposit and what remains of it for the
      organisation: the fee is the deposit divided by the fee divisor,
      rounded down, and the rounding remainder stays with the donation. */
  function SplitDeposit(deposit: Amount): (r: (Amount, Amount))
    ensures r.0 + r.1 == deposit
    ensures r.0 * PLATFORM_FEE_DIVISOR <= deposit < (r.0 + 1) * PLATFORM_FEE_DIVISOR
  {
    var q := deposit / PLATFORM_FEE_DIVISOR;
    assert IsAmount(deposit);
    assert 0 <= q <= deposit && IsAmount(q) && IsAmount(deposit - q);
    (q, deposit - q)
  }

  /** `donate()`: no ledger change here. The fee is sent to the factory's
      `deposit_fees`, then `on_donate(net)` runs on this contract. */
  function Donate(s: State, ctx: Context): (r: Result<Step<State>, Error>)
    ensures r.Ok? <==> IsInitialized(s) && ctx.attachedDeposit >= MIN_DONATION_AMOUNT
    ensures !IsInitialized(s) ==> r == Abort(NotInitialized)
    ensures IsInitialized(s) && ctx.attachedDeposit < MIN_DONATION_AMOUNT ==> r == Abort(BelowMinimumDonation)
    ensures r.Ok? ==> r.value.state == s
    ensures r.Ok? ==>
      var (fee, net) := SplitDeposit(ctx.attachedDeposit);
      r.value.scheduled == [
        Batch(s.factoryAccount.value, [FunctionCallAction("deposit_fees", EmptyArgs, fee)]),
        Batch(ctx.contractName, [FunctionCallAction("on_donate", AmountArgs(net), 0)])]
  {
    if !IsInitialized(s) then Abort(NotInitialized)
    else if ctx.attachedDeposit < MIN_DONATION_AMOUNT then Abort(BelowMinimumDonation)
    else
      var (fee, net) := SplitDeposit(ctx.attachedDeposit);
      Ok(Step(s, [
        Batch(s.factoryAccount.value, [FunctionCallAction("deposit_fees", EmptyArgs, fee)]),
        Batch(ctx.contractName, [FunctionCallAction("on_donate", AmountArgs(net), 0)])]))
  }

  /** `on_donate(amount)`: on success the balance grows by `amount` and one
      record is appended, whose donor is the predecessor of this very
      continuation call; any other status changes nothing. The caller is
      not checked. */
  function OnDonate(s: State, ctx: Context, status: int, amount: Amount): (r: Result<Step<State>, Error>)
    ensures r.Abort? <==> status == STATUS_SUCCESSFUL && s.balance + amount >= U128_LIMIT
    ensures r.Abort? ==> r.error == BalanceOverflow
    ensures r.Ok? ==> r.value.scheduled == [] && r.value.state.factoryAccount == s.factoryAccount
    ensures r.Ok? && status == STATUS_SUCCESSFUL ==>
      && r.value.state.balance == s.balance + amount
      && |r.value.state.donations| == |s.donations| + 1
      && r.value.state.donations[..|s.donations|] == s.donations
      && r.value.state.donations[|s.donations|] == Donation(ctx.predecessor, amount, ctx.blockTimestamp)
    ensures status != STATUS_SUCCESSFUL ==> r == Ok(Step(s, []))
  {
    match Outcome(status)
    case Successful =>
      if s.balance + amount >= U128_LIMIT then Abort(BalanceOverflow)
      else
        var record := Donation(ctx.predecessor, amount, ctx.blockTimestamp);
        Ok(Step(s.(balance := s.balance + amount, donations := s.donations + [record]), []))
    case _ =>
      Ok(Step(s, []))
  }

  /** Start and end index (both inclusive) of page `page` of a list of
      `count` donations. The end is -1 for an empty list. */
  function PageBounds(page: nat, count: nat): (int, int) {
    var startIndex := page * PAGE_SIZE;
    var lastIndex := count - 1;
    var pageEnd := (page + 1) * PAGE_SIZE - 1;
    (startIndex, if lastIndex < pageEnd then lastIndex else pageEnd)
  }

  /** The page `get_donations(page)` returns: the donations from index
      `page * PAGE_SIZE` on, at most a page's worth, provided that makes
      at least two of them. A page holding one donation does not exist. */
  function DonationsPage(s: State, page: nat): (r: Result<seq<Donation>, Error>)
    ensures r.Ok? <==> IsInitialized(s) && page * PAGE_SIZE + 1 < |s.donations|
    ensures !IsInitialized(s) ==> r == Abort(NotInitialized)
    ensures IsInitialized(s) && r.Abort? ==> r.error == PageDoesNotExist
    ensures r.Ok? ==> 2 <= |r.value| <= PAGE_SIZE
    ensures r.Ok? ==> |r.value| == if |s.donations| - page * PAGE_SIZE < PAGE_SIZE
                                   then |s.donations| - page * PAGE_SIZE else PAGE_SIZE
    ensures r.Ok? ==> forall i :: 0 <= i < |r.value| ==> r.value[i] == s.donations[page * PAGE_SIZE + i]
  {
    if !IsInitialized(s) then Abort(NotInitialized)
    else
      var (startIndex, endIndex) := PageBounds(page, |s.donations|);
      if !(startIndex < endIndex) then Abort(PageDoesNotExist)
      else Ok(s.donations[startIndex..endIndex + 1])
  }

  /** `get_donations(page)`, with the copying loop of the contract. */
  method GetDonations(s: State, page: nat) returns (r: Result<seq<Donation>, Error>)
    ensures r == DonationsPage(s, page)
  {
    if !IsInitialized(s) {
      return Abort(NotInitialized);
    }
    var (startIndex, endIndex) := PageBounds(page, |s.donations|);
    if !(startIndex < endIndex) {
      return Abort(PageDoesNotExist);
    }
    var results: seq<Donation> := [];
    var i := startIndex;
    while i <= endIndex
      invariant startIndex <= i <= endIndex + 1
      invariant results == s.donations[startIndex..i]
    {
      results := results + [s.donations[i]];
      i := i + 1;
    }
    return Ok(results);
  }

  /** `get_balance()`: the confirmed balance, once initialised. */
  function GetBalance(s: State): (r: Result<Amount, Error>)
    ensures r.Ok? <==> IsInitialized(s)
    ensures r.Ok? ==> r.value == s.balance
    ensures r.Abort? ==> r.error == NotInitialized
  {
    if !IsInitialized(s) then Abort(NotInitialized) else Ok(s.balance)
  }

  /** `withdraw_donations(amount)`: checks the balance now but debits it only
      in `on_donations_withdrawn`. Schedules a transfer to the caller, then
      the continuation. */
  function WithdrawDonations(s: State, ctx: Context, amount: Amount): (r: Result<Step<State>, Error>)
    ensures r.Ok? <==> IsInitialized(s) && IsParent(ctx) && amount <= s.balance
    ensures !IsInitialized(s) ==> r == Abort(NotInitialized)
    ensures IsInitialized(s) && !IsParent(ctx) ==> r == Abort(NotCalledByParent)
    ensures IsInitialized(s) && IsParent(ctx) && amount > s.balance ==> r == Abort(AmountExceedsBalance)
    ensures r.Ok? ==> r.value.state == s
    ensures r.Ok? ==> r.value.scheduled == [
      Batch(ctx.predecessor, [TransferAction(amount)]),
      Batch(ctx.contractName, [FunctionCallAction("on_donations_withdrawn", AmountArgs(amount), 0)])]
  {
    if !IsInitialized(s) then Abort(NotInitialized)
    else if !IsParent(ctx) then Abort(NotCalledByParent)
    else if amount > s.balance then Abort(AmountExceedsBalance)
    else
      Ok(Step(s, [
        Batch(ctx.predecessor, [TransferAction(amount)]),
        Batch(ctx.contractName, [FunctionCallAction("on_donations_withdrawn", AmountArgs(amount), 0)])]))
  }

  /** `on_donations_withdrawn(amount)`: on success the balance drops by
      `amount`; any other status changes nothing. Since the balance was
      only checked at dispatch, a debit larger than the current balance is
      reported rather than assumed away. The caller is not checked. */
  function OnDonationsWithdrawn(s: State, ctx: Context, status: int, amount: Amount): (r: Result<Step<State>, Error>)
    ensures r.Abort? <==> status == STATUS_SUCCESSFUL && amount > s.balance
    ensures r.Abort? ==> r.error == BalanceUnderflow
    ensures r.Ok? ==> r.value.scheduled == []
    ensures r.Ok? ==> r.value.state.factoryAccount == s.factoryAccount && r.value.state.donations == s.donations
    ensures r.Ok? && status == STATUS_SUCCESSFUL ==> r.value.state.balance + amount == s.balance
    ensures status != STATUS_SUCCESSFUL ==> r == Ok(Step(s, []))
  {
    match Outcome(status)
    case Successful =>
      if amount > s.balance then Abort(BalanceUnderflow)
      else Ok(Step(s.(balance := s.balance - amount), []))
    case _ =>
      Ok(Step(s, []))
  }
}
