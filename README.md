# scroll-origins-minter: a Dafny model of its decision logic

The script mints the Scroll Origins NFT for a batch of accounts. It splits the
accounts into worker groups. Each worker then handles its accounts one by one:
it waits for an acceptable Ethereum gas price, asks the eligibility service for
the account's metadata and proof, sends the mint transaction, polls for the
receipt, and sleeps a random interval before the next account.

This project models the decisions inside that flow and proves what they
guarantee. The RPC, HTTP, signing and threading code is not modelled; its
results are inputs to the model.

- `partition.dfy` (module `Partition`): how `main` cuts the account list into
  `min(THREADS, n)` contiguous groups. The method `Split` is the `for` loop;
  the lemmas give the group sizes, their sum and their balance.
- `eligibility.dfy` (module `Eligibility`): the verdict of `check_eligibility`
  and its rarity tier, chosen by string prefix. It also holds `int(text, 16)`,
  with a hex printer as its inverse, and the metadata reshape done in `mint`.
- `confirmation.dfy` (module `Confirmation`): `wait_until_tx_finished` as a
  loop over a finite sequence of receipt observations. The clock is an
  integer in milliseconds. The function `Wait` specifies the loop, and the
  method `WaitUntilTxFinished` is proved against it.
- `minting.dfy` (module `Minting`): what `mint` returns, and the per-account
  loop of `run_thread_group`, with its pacing sleep.
- `gas_gate.dfy` (module `GasGate`): `wait_gas`. The class `GasOracle` holds
  the two module globals `last_check` and `last_gas`, plus the clock. Its
  method `WaitGas` is proved against the function `WaitGasSpec`, and the
  lemmas state the gate's guarantees over that function.
- `options.dfy` (module `Options`): the `Option` datatype.

Modelling conventions:
- Every clock is an integer number of milliseconds, advanced by the modelled
  sleeps (300 ms, 1 s, 60 s) and by the duration of each RPC query, which is
  an input.
- The gas price is held in wei, so `gwei <= MAX_GWEI` is exactly
  `wei <= MAX_GWEI * 10^9` when MAX_GWEI is a whole number.
- A failed price query is the price `Infinite`.
- Both `while True` loops run over a finite sequence of inputs. Running out
  of inputs is reported as "still polling" or "still waiting", meaning the
  real loop would carry on.

Behaviour of the code that the model keeps:
- Any rarity prefix other than `0x7c` or `0x25` is Legendary.
- `mint` returns True as soon as the transaction has been broadcast and the
  receipt wait has returned, even if the receipt says the transaction
  failed or timed out. So in mode "1" the pacing sleep follows every such
  account, not only the successful ones.
- Only `TransactionNotFound` is caught inside the poll loop. Any other RPC
  exception leaves the loop, and `mint` then returns False.
- A receipt that has no status is polled again after 300 ms without any
  deadline check. `Confirmation.PendingNeverTimesOut` proves that such
  receipts keep the loop going for ever.
- `Minter(account)` is built outside any `try`, and in mode "2" so is the
  call to `check_eligibility`. A missing abi.json, a malformed key or, in
  mode "2", a malformed response therefore ends that worker's loop.
- `mint` goes on only when the `requests` response is truthy, which means
  its HTTP status is not an error status (400 to 599).
- `Split` requires at least one account and a thread count of at least one.
  With no accounts, `THREADS` drops to 0 and line 139 divides by zero. With
  `THREADS` 0 the same happens. A negative `THREADS` does not crash
  Python (`n // -k` is defined and `range(-k)` is empty), so `main` starts
  no worker; `threads` is a `nat`, so this case is not modelled.

## Model

| member | source | states |
|---|---|---|
| `Partition.Split` | main.py:135-148 | the number of groups is min(THREADS, n); group i has size n / T, plus one when i < n % T; the groups concatenated in order give back exactly the account list |
| `Partition.SizesSumToTotal` | main.py:139-148 | the group sizes add up to the number of accounts |
| `Partition.GroupStartClosedForm` | main.py:142-148 | group i starts at i * (n / T) + min(i, n % T) |
| `Partition.GroupWithinAccounts` | main.py:146-147 | every slice end is at most n, so no slice is clipped |
| `Partition.SizesBalanced` | main.py:139-146 | two group sizes differ by at most one, and an earlier group is never smaller than a later one |
| `Partition.GroupsNonEmpty` | main.py:135-146 | with T <= n, every group holds at least one account |
| `Partition.FiveAccountsTwoThreads` | main.py:135-146 | 5 accounts with THREADS = 2 give groups of sizes 3 and 2 |
| `Eligibility.RarityByPrefix` | main.py:47-52 | a string starting "0x7c" is Rare, one starting "0x25" is Common, and any other string (including one shorter than four characters) is Legendary |
| `Eligibility.RarityDependsOnPrefixOnly` | main.py:47-52 | two strings with the same first four characters get the same tier |
| `Eligibility.Lookup` | main.py:46 | a key lookup finds a value exactly when a field with that key exists, and returns the value of the first such field |
| `Eligibility.CheckEligibility` | main.py:42-55 | a falsy body is ineligible; a `rarityData` string gives Eligible with the tier of that string; any other body raises |
| `Eligibility.DigitsRoundTrip` | main.py:64 | reading back the hex digits printed for n gives n |
| `Eligibility.HexRoundTrip` | main.py:64 | `int(hex(n), 16) == n` for every natural n |
| `Eligibility.ParseHexPrefixOptional` | main.py:64 | base-16 parsing accepts its digits with or without a `0x` prefix, and rejects the empty text and a bare `0x` |
| `Eligibility.Reshape` | main.py:63-64 | succeeds exactly when the tuple is non-empty and its last field is hex text; then it has the same length, every field but the last is unchanged, and the last is that text's integer value |
| `Eligibility.ReshapeMetadata` | main.py:63-64 | the tuple built from the metadata fields exists exactly when the last field holds hex text; it then has one entry per field, the earlier field values in order, and the integer value of the last field's text |
| `Eligibility.ReshapeRoundTrip` | main.py:63-64 | a tuple ending in the hex text of n reshapes to the same tuple ending in n |
| `Confirmation.WaitUntilTxFinished` | main.py:93-115 | the poll loop returns the outcome, the number of polls used and the final clock of the specification `Wait` |
| `Confirmation.WaitShape` | main.py:95-115 | every observation before the deciding one was "not found" or a receipt with no status; the deciding one is status 1 (Confirmed), another status (Reverted), a non-`TransactionNotFound` exception (raised), or "not found" after more than `max_wait_time` (TimedOut); the clock never goes back |
| `Confirmation.FirstStatusDecides` | main.py:99-110 | a receipt with status 1 ends the wait with True at that poll; any other status ends it with False |
| `Confirmation.PendingNeverTimesOut` | main.py:104-105 | receipts with no status are polled for ever, whatever the clock |
| `Confirmation.NotFoundTimesOutFrom` | main.py:111-115 | a run of "not found" once past the deadline ends in TimedOut |
| `Confirmation.AllNotFoundTimesOut` | main.py:111-115 | "not found" alone ends in TimedOut once the one-second sleeps exceed `max_wait_time` |
| `Confirmation.DeadlineIsStrict` | main.py:112-115 | "not found" with at most `max_wait_time` elapsed, exactly `max_wait_time` included, sleeps 1 s and polls again |
| `Confirmation.ReceiptScenarios` | main.py:93-110 | [not found, not found, status 1] gives True after three polls; [status 0] gives False after one |
| `Minting.Mint` | main.py:57-91 | False unless the account is eligible, the response is OK, the metadata reshapes, a proof exists and the chain stage succeeds; after that, True once the receipt wait returns, whatever it reports; False if the wait raises |
| `Minting.MintIgnoresReceipt` | main.py:84-87 | once broadcast, a confirmed, reverted or timed-out receipt all give True |
| `Minting.IneligibleNeverMints` | main.py:59-61 | an ineligible or failing eligibility check, or a non-OK response, gives False |
| `Minting.PacingFollowsBroadcast` | main.py:119-129 | in mode "1" an account is followed by its random sleep exactly when its `Minter` was built, its transaction was broadcast and the wait returned; the worker stops there exactly when the `Minter` could not be built or the wait is still polling |
| `Minting.OnlyMintModeSleeps` | main.py:119-129 | only mode "1" sleeps; in mode "2" a worker stops exactly when the `Minter` cannot be built or `check_eligibility` raises |
| `Minting.RunThreadGroup` | main.py:118-129 | accounts are handled in order; each one handled ended its turn with the sleep its step gives; the loop stops only at an account whose turn does not end (its `Minter` cannot be built, mode "2" eligibility raises, or the receipt wait goes on) |
| `Minting.SleepsWithinBounds` | main.py:127-129 | every pacing sleep lies within [MIN_SLEEP, MAX_SLEEP] |
| `GasGate.DisabledIsNoOp` | gas_checker.py:28-29 | with CHECK_GWEI off, `wait_gas` returns at once and leaves `last_check` and `last_gas` unchanged |
| `GasGate.ReturnsOnlyWhenAccepted` | gas_checker.py:32-47 | `wait_gas` returns only when the `last_gas` it holds is at most MAX_GWEI; otherwise it keeps waiting |
| `GasGate.TurnsUntilAccepted` | gas_checker.py:32-47 | `wait_gas` returns at the first turn whose price (the cached one while under 60 s old, otherwise the fetched one) is at most MAX_GWEI, and at no earlier turn: every turn before the last used saw a refused price; after the last turn `last_gas` is the last price compared |
| `GasGate.ReturnsAtAcceptedTurn` | gas_checker.py:33-44 | a turn whose cached or fetched price is acceptable returns on that turn |
| `GasGate.CachedBoundaryAccepted` | gas_checker.py:33-35 | a fresh cached price exactly equal to MAX_GWEI is accepted at once, without a fetch |
| `GasGate.BoundaryAccepted` | gas_checker.py:38-44 | a fresh price exactly equal to MAX_GWEI is accepted on that turn |
| `GasGate.AboveBoundaryRejected` | gas_checker.py:38-47 | a fresh price above MAX_GWEI is refused; the sample is stored with its fetch time and the caller sleeps 60 s |
| `GasGate.FailuresNeverPass` | gas_checker.py:20-44 | a failed query is an infinite price, so while every query fails the caller is never let through |
| `GasGate.FetchesSpaced` | gas_checker.py:33-41 | no fetch while the sample is under 60 s old; fetches are at least 60 s apart; after a fetch `last_check` is its time; with no fetch the cache is unchanged |
| `GasGate.SettledNeverSpins` | gas_checker.py:33-47 | starting from no sample, an acceptable one or a stale one, the busy `continue` branch is never taken |
| `GasGate.ReturnLeavesSettled` | gas_checker.py:25-47 | a returning call leaves the cache settled, so sequential callers never busy-wait |
| `GasGate.GasOracle.WaitGas` | gas_checker.py:25-47 | the loop's return value and the new `last_check`, `last_gas` and clock are those of `WaitGasSpec` |
| `GasGate.GasOracle.constructor` | gas_checker.py:9-10 | the module starts with no sample, a state that is settled for every ceiling |

## Left out

- The HTTP eligibility request, the Web3 provider, ABI loading, the chain id, gas price and nonce queries, building, signing and `send_raw_transaction` (main.py:25-40, 67-84) are foreign calls. Their results are the inputs `Response`, `Chain` and the poll observations.
- `threading.Thread`, `join` and the module lock (main.py:150-163, gas_checker.py:11, 31) are concurrency. The model covers one caller at a time. That is what the lock gives `wait_gas`, and the workers share nothing else.
- `time.time()` and `time.sleep` are floating-point seconds; the model uses an integer millisecond clock. Every RPC query's duration is an input.
- `Minting.RunThreadGroup`: does not run the `wait_gas` call made before each account in mode "1" (main.py:122-123). Composing the gas gate with the mint loop is not modelled.
- `Minting.Mint`: does not run the `wait_gas` call between signing and broadcast (main.py:81-82). That call can block for ever, and `Chain` cannot express this, so `Mint` assumes it returns.
- `Eligibility.Lookup`: the fields stand for a decoded dict with distinct keys. A JSON text that repeats a key, which `json.loads` resolves to the last value, is not modelled.
- `random.randint` and `random.shuffle` are random. The sleep draws are an input, and one drawn value is passed per account. `randint` raising when MIN_SLEEP > MAX_SLEEP is not modelled. The shuffle is left out.
- `Eligibility.ParseHex`: models the `0x`/`0X` prefix and hex digits of `int(text, 16)`. It does not model surrounding whitespace, a sign, or `_` digit separators, or non-ASCII decimal digits, which Python also accepts.
- `mint` builds the contract call from the reshaped tuple and the proof. The model does not carry their exact contents into the transaction, and a proof of any JSON type is accepted, as in the source.
- `GasGate.Ceiling`: MAX_GWEI is a whole number of gwei. A fractional MAX_GWEI, or `Decimal` comparison in general, is not modelled.
- Reading `accounts.txt`, `input()`, all logging and `traceback.print_exc` are I/O.
- settings.py holds only constants. They appear as parameters or constants: THREADS as `threads`, MAX_GWEI as `maxGwei`, CHECK_GWEI as `checkGwei`, and the mode string.
- `main` also writes the lowered thread count back into the global `THREADS`. That write affects nothing else here, so it is not modelled.
