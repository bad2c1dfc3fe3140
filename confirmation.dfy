/**
  `Minter.wait_until_tx_finished` (main.py): polls for the receipt of a sent
  transaction. Time is an integer clock in milliseconds; each poll is one
  observation, together with the time the receipt query took.
 */
module Confirmation {

  /** What one `get_transaction_receipt` call gives. */
  datatype Observation =
    | NotFound                    // TransactionNotFound was raised
    | Status(code: StatusCode)    // a receipt; `receipts.get("status")`
    | RpcFailure                  // any other exception: it is not caught here

  datatype StatusCode = NoStatus | Code(value: int)

  datatype Poll = Poll(took: nat, observation: Observation)

  datatype Outcome =
    | Confirmed      // returned True
    | Reverted       // returned False: a status other than 1
    | TimedOut       // returned False: not found after the deadline
    | RpcRaised      // an exception left the function
    | StillPolling   // the observations ran out while the loop goes on

  datatype WaitResult = WaitResult(outcome: Outcome, used: nat, clock: int)

  const PendingDelay: nat := 300
  const NotFoundDelay: nat := 1000
  const DefaultMaxWait: int := 180000

  /** Whether the call ended by returning a value (True, or False). */
  predicate Returns(o: Outcome)
  {
    o.Confirmed? || o.Reverted? || o.TimedOut?
  }

  /**
    The poll loop from observation `i` on, at clock `clock`, for a wait that
    started at `start`. A missing receipt is the only branch that looks at the
    clock: a receipt without a status is re-polled after 300 ms whatever the
    time.
   */
  function Wait(polls: seq<Poll>, i: nat, clock: int, start: int, maxWait: int): WaitResult
    requires i <= |polls|
    decreases |polls| - i
  {
    if i == |polls| then WaitResult(StillPolling, i, clock)
    else
      var now := clock + polls[i].took;
      match polls[i].observation
      case Status(Code(1)) => WaitResult(Confirmed, i + 1, now)
      case Status(NoStatus) => Wait(polls, i + 1, now + PendingDelay, start, maxWait)
      case Status(Code(_)) => WaitResult(Reverted, i + 1, now)
      case RpcFailure => WaitResult(RpcRaised, i + 1, now)
      case NotFound =>
        if now - start > maxWait then WaitResult(TimedOut, i + 1, now)
        else Wait(polls, i + 1, now + NotFoundDelay, start, maxWait)
  }

  /** The observation that must have been seen last for each outcome. */
  predicate Decides(p: Poll, clock: int, start: int, maxWait: int, o: Outcome)
  {
    match o
    case Confirmed => p.observation == Status(Code(1))
    case Reverted => p.observation.Status? && p.observation.code.Code? && p.observation.code.value != 1
    case RpcRaised => p.observation == RpcFailure
    case TimedOut => p.observation == NotFound && clock - start > maxWait
    case StillPolling => false
  }

  /**
    Every poll before the last one used was a missing receipt or a receipt
    without status; the last one decides the outcome.
    The clock never runs backwards.
   */
  lemma {:induction false} WaitShape(polls: seq<Poll>, i: nat, clock: int, start: int, maxWait: int)
    requires i <= |polls|
    ensures var r := Wait(polls, i, clock, start, maxWait);
      i <= r.used <= |polls| && r.clock >= clock
      && (r.outcome.StillPolling? ==> r.used == |polls|)
      && (!r.outcome.StillPolling? ==> i < r.used && Decides(polls[r.used - 1], r.clock, start, maxWait, r.outcome))
      && (forall k :: i <= k < r.used - 1 ==>
            polls[k].observation == NotFound || polls[k].observation == Status(NoStatus))
    decreases |polls| - i
  {
    if i < |polls| {
      var now := clock + polls[i].took;
      match polls[i].observation
      case Status(NoStatus) =>
        WaitShape(polls, i + 1, now + PendingDelay, start, maxWait);
      case NotFound =>
        if now - start <= maxWait {
          WaitShape(polls, i + 1, now + NotFoundDelay, start, maxWait);
        }
      case _ =>
    }
  }

  /** The first receipt with a status decides, whatever came before it. */
  lemma {:induction false} FirstStatusDecides(polls: seq<Poll>, i: nat, clock: int, start: int, maxWait: int)
    requires i < |polls|
    requires polls[i].observation.Status? && polls[i].observation.code.Code?
    ensures Wait(polls, i, clock, start, maxWait).outcome
            == if polls[i].observation.code.value == 1 then Confirmed else Reverted
    ensures Wait(polls, i, clock, start, maxWait).used == i + 1
  {
  }

  /** A receipt that keeps coming back without status is polled for ever: the deadline never applies. */
  lemma {:induction false} PendingNeverTimesOut(polls: seq<Poll>, i: nat, clock: int, start: int, maxWait: int)
    requires i <= |polls|
    requires forall k :: i <= k < |polls| ==> polls[k].observation == Status(NoStatus)
    ensures Wait(polls, i, clock, start, maxWait).outcome == StillPolling
    ensures Wait(polls, i, clock, start, maxWait).used == |polls|
    decreases |polls| - i
  {
    if i < |polls| {
      PendingNeverTimesOut(polls, i + 1, clock + polls[i].took + PendingDelay, start, maxWait);
    }
  }

  lemma {:induction false} NotFoundTimesOutFrom(polls: seq<Poll>, i: nat, clock: int, start: int, maxWait: int)
    requires i < |polls|
    requires forall k :: i <= k < |polls| ==> polls[k].observation == NotFound
    requires clock >= start + NotFoundDelay * i
    requires NotFoundDelay * (|polls| - 1) > maxWait
    ensures Wait(polls, i, clock, start, maxWait).outcome == TimedOut
    decreases |polls| - i
  {
    var now := clock + polls[i].took;
    if now - start <= maxWait {
      NotFoundTimesOutFrom(polls, i + 1, now + NotFoundDelay, start, maxWait);
    }
  }

  /**
    Missing receipts alone end in a time-out once the one-second sleeps pass
    the deadline: with the default of 180 s, 182 polls are enough.
   */
  lemma AllNotFoundTimesOut(polls: seq<Poll>, start: int, maxWait: int)
    requires |polls| > 0
    requires forall k :: 0 <= k < |polls| ==> polls[k].observation == NotFound
    requires NotFoundDelay * (|polls| - 1) > maxWait
    ensures Wait(polls, 0, start, start, maxWait).outcome == TimedOut
  {
    NotFoundTimesOutFrom(polls, 0, start, start, maxWait);
  }

  /**
    Inside the deadline a miss sleeps a second and polls again. The test is
    strict, so this includes a miss at exactly `maxWait` elapsed.
   */
  lemma DeadlineIsStrict(polls: seq<Poll>, i: nat, clock: int, start: int, maxWait: int)
    requires i < |polls|
    requires polls[i].observation == NotFound
    requires clock + polls[i].took - start <= maxWait
    ensures Wait(polls, i, clock, start, maxWait)
            == Wait(polls, i + 1, clock + polls[i].took + NotFoundDelay, start, maxWait)
  {
  }

  lemma ReceiptScenarios(start: int)
    ensures Wait([Poll(0, NotFound), Poll(0, NotFound), Poll(0, Status(Code(1)))], 0, start, start, DefaultMaxWait)
            == WaitResult(Confirmed, 3, start + 2 * NotFoundDelay)
    ensures Wait([Poll(0, Status(Code(0)))], 0, start, start, DefaultMaxWait) == WaitResult(Reverted, 1, start)
  {
  }

  /** The poll loop itself. */
  method WaitUntilTxFinished(polls: seq<Poll>, start: int, maxWait: int)
    returns (outcome: Outcome, used: nat, clock: int)
    ensures WaitResult(outcome, used, clock) == Wait(polls, 0, start, start, maxWait)
  {
    var i := 0;
    clock := start;
    while i < |polls|
      invariant i <= |polls|
      invariant Wait(polls, i, clock, start, maxWait) == Wait(polls, 0, start, start, maxWait)
      decreases |polls| - i
    {
      clock := clock + polls[i].took;
      match polls[i].observation {
        case Status(NoStatus) =>
          clock := clock + PendingDelay;
        case Status(Code(code)) =>
          outcome := if code == 1 then Confirmed else Reverted;
          used := i + 1;
          return;
        case RpcFailure =>
          outcome, used := RpcRaised, i + 1;
          return;
        case NotFound =>
          if clock - start > maxWait {
            outcome, used := TimedOut, i + 1;
            return;
          }
          clock := clock + NotFoundDelay;
      }
      i := i + 1;
    }
    outcome, used := StillPolling, i;
  }
}
