/** The pieces of the NEAR runtime the contracts see, made explicit: the
    call context, the actions a contract may schedule, the outcome of a
    step, and the status a continuation receives for the call it follows. */
module Near {
  import opened Utils

  datatype Option<+T> = None | Some(value: T)

  /** An entry point either aborts (a failed `assert`, with nothing written
      and nothing scheduled) or finishes with a value. */
  datatype Result<+T, +E> = Ok(value: T) | Abort(error: E)

  /** What `context` tells an entry point about the call being executed. */
  datatype Context = Context(
    predecessor: AccountId,
    contractName: AccountId,
    senderPublicKey: string,
    attachedDeposit: Amount,
    blockTimestamp: Timestamp)

  /** The JSON argument object of a scheduled function call. */
  datatype Args =
    | EmptyArgs                        // "{}"
    | AmountArgs(amount: Amount)       // { amount }
    | AccountArgs(account: AccountId)  // { account }

  /** One action of a `ContractPromiseBatch`. */
  datatype Action =
    | CreateAccountAction
    | DeployContractAction
    | AddFullAccessKeyAction(publicKey: string)
    | FunctionCallAction(methodName: string, args: Args, deposit: Amount)
    | TransferAction(amount: Amount)

  /** A batch of actions executed in order against one receiver. */
  datatype Batch = Batch(receiver: AccountId, actions: seq<Action>)

  /** The new state of a contract together with the batches it scheduled;
      each batch in `scheduled` runs after (`.then`) the one before it. */
  datatype Step<S> = Step(state: S, scheduled: seq<Batch>)

  /** The status code of a promise result as the runtime reports it. */
  const STATUS_NOT_READY: int := 0
  const STATUS_SUCCESSFUL: int := 1
  const STATUS_FAILED: int := 2

  datatype PromiseOutcome = NotReady | Successful | Failed | Unexpected

  /** Decodes a status code; every code outside 0, 1, 2 is `Unexpected`. */
  function Outcome(status: int): PromiseOutcome {
    if status == STATUS_NOT_READY then NotReady
    else if status == STATUS_SUCCESSFUL then Successful
    else if status == STATUS_FAILED then Failed
    else Unexpected
  }
}
