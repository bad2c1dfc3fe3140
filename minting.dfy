/**
  The outcome logic of `Minter.mint` and the per-account loop of
  `run_thread_group` (main.py). The chain queries, signing and broadcast are
  not modelled; their combined result is an input.
 */
module Minting {
  import opened Options
  import opened Eligibility
  import opened Confirmation

  /** How the chain id, gas price and nonce queries, the build, the signing and the broadcast went. */
  datatype Chain = Broadcast | ChainFailure

  /**
    Whether `mint` gets as far as broadcasting: eligible with an OK HTTP
    status, a metadata tuple that reshapes, a proof, and a chain stage that
    raised nothing.
   */
  predicate ReachesBroadcast(response: Response, chain: Chain)
  {
    CheckEligibility(response.body).Eligible? && response.ok
    && response.body.metadata.Some?
    && Reshape(Values(response.body.metadata.value)).Some?
    && response.body.proof.Some?
    && chain == Broadcast
  }

  /**
    `mint`: `Some(b)` when it returns `b`, `None` when it is still waiting for
    the receipt. Every exception is caught and gives False.
   */
  function Mint(response: Response, chain: Chain, wait: Outcome): (r: Option<bool>)
    ensures !ReachesBroadcast(response, chain) ==> r == Some(false)
    ensures r == Some(true) <==> ReachesBroadcast(response, chain) && Returns(wait)
    ensures r == None <==> ReachesBroadcast(response, chain) && wait == StillPolling
  {
    match CheckEligibility(response.body)
    case Raised => Some(false)
    case Ineligible => Some(false)
    case Eligible(_) =>
      if !response.ok then Some(false)
      else
        var body := response.body;
        if Reshape(Values(body.metadata.value)).None? then Some(false)
        else if body.proof.None? then Some(false)
        else if chain == ChainFailure then Some(false)
        else match wait
          case StillPolling => None
          case RpcRaised => Some(false)
          case _ => Some(true)
  }

  /** Once broadcast, `mint` reports True whether the receipt said success, failure or nothing in time. */
  lemma MintIgnoresReceipt(response: Response, chain: Chain)
    requires ReachesBroadcast(response, chain)
    ensures Mint(response, chain, Confirmed) == Mint(response, chain, Reverted)
            == Mint(response, chain, TimedOut) == Some(true)
  {
  }

  /** Without a proper eligible response nothing is broadcast and `mint` reports False. */
  lemma IneligibleNeverMints(response: Response, chain: Chain, wait: Outcome)
    requires CheckEligibility(response.body).Ineligible? || CheckEligibility(response.body).Raised? || !response.ok
    ensures Mint(response, chain, wait) == Some(false)
  {
  }

  /**
    The world one account meets inside `run_thread_group`. `setupOk` says
    whether `Minter(account)` could be built: it reads abi.json and derives
    the address from the key, outside any `try`.
   */
  datatype Attempt = Attempt(setupOk: bool, response: Response, chain: Chain, wait: Outcome)

  /** The end of one account's turn: the worker goes on, sleeping or not, or stops there. */
  datatype Step = Continue(sleep: Option<int>) | Halt

  /**
    One account in mode `mode`. A `Minter` that cannot be built ends the
    worker in every mode. Mode "2" only runs `check_eligibility`, which is not
    guarded by a try either: an exception ends the worker. Every other mode
    mints, and only mode "1" sleeps after a True. `choice` is the value
    `random.randint(MIN_SLEEP, MAX_SLEEP)` would draw.
   */
  function AccountStep(mode: string, a: Attempt, choice: int): Step
  {
    if !a.setupOk then Halt
    else if mode == "2" then
      if CheckEligibility(a.response.body).Raised? then Halt else Continue(None)
    else match Mint(a.response, a.chain, a.wait)
      case None => Halt
      case Some(ok) => Continue(if ok && mode == "1" then Some(choice) else None)
  }

  /** In mode "1" the pacing sleep follows exactly the accounts whose transaction went out and was waited for. */
  lemma PacingFollowsBroadcast(a: Attempt, choice: int)
    ensures AccountStep("1", a, choice) == Continue(Some(choice))
            <==> a.setupOk && ReachesBroadcast(a.response, a.chain) && Returns(a.wait)
    ensures AccountStep("1", a, choice) == Halt
            <==> !a.setupOk || (ReachesBroadcast(a.response, a.chain) && a.wait == StillPolling)
  {
  }

  /**
    Only mode "1" ever sleeps; mode "2" stops only when the `Minter` cannot be
    built or `check_eligibility` raises.
   */
  lemma OnlyMintModeSleeps(mode: string, a: Attempt, choice: int)
    requires mode != "1"
    ensures AccountStep(mode, a, choice).Continue? ==> AccountStep(mode, a, choice).sleep.None?
    ensures mode == "2" ==> (AccountStep(mode, a, choice) == Halt
                             <==> !a.setupOk || CheckEligibility(a.response.body).Raised?)
  {
  }

  /**
    `run_thread_group` over one group: `sleeps[k]` is what happened after
    account k; the accounts are taken in order and the loop stops at the
    first account whose turn does not end.
   */
  method RunThreadGroup(mode: string, group: seq<Attempt>, choices: seq<int>)
    returns (sleeps: seq<Option<int>>)
    requires |choices| == |group|
    ensures |sleeps| <= |group|
    ensures forall k :: 0 <= k < |sleeps| ==> AccountStep(mode, group[k], choices[k]) == Continue(sleeps[k])
    ensures |sleeps| < |group| ==> AccountStep(mode, group[|sleeps|], choices[|sleeps|]) == Halt
  {
    sleeps := [];
    for i := 0 to |group|
      invariant |sleeps| == i
      invariant forall k :: 0 <= k < i ==> AccountStep(mode, group[k], choices[k]) == Continue(sleeps[k])
    {
      var step := AccountStep(mode, group[i], choices[i]);
      if step == Halt {
        return;
      }
      sleeps := sleeps + [step.sleep];
    }
  }

  /** Every sleep is drawn from the configured bounds. */
  lemma SleepsWithinBounds(mode: string, group: seq<Attempt>, choices: seq<int>, sleeps: seq<Option<int>>,
                           minSleep: int, maxSleep: int)
    requires |choices| == |group| && |sleeps| <= |group|
    requires forall k :: 0 <= k < |choices| ==> minSleep <= choices[k] <= maxSleep
    requires forall k :: 0 <= k < |sleeps| ==> AccountStep(mode, group[k], choices[k]) == Continue(sleeps[k])
    ensures forall k :: 0 <= k < |sleeps| && sleeps[k].Some? ==> minSleep <= sleeps[k].value <= maxSleep
  {
  }
}
