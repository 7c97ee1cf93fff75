# Collatz check over a worker pool

A model of the demo program `example.py`. It has two parts:

- `collatz(n, msg)` formats the message `"Checked for {n}: {msg}"` from its
  input `n`. When `n <= 1` it returns at once. Otherwise it runs the Collatz
  iteration (halve an even value, turn an odd value into `3n + 1`) until the
  value is `<= 1`, and then returns the message it formatted first.
- `check_collatz_until(n)` builds the task list `(i, "Collatz was right!")`
  for `i = 1..n`. It hands the list to `multiprocessing.Pool.starmap`, and
  returns the list of results.

Three modules, one per concern:

- `Decimal` (`decimal.dfy`) is Python's decimal text of an `int`, which an
  f-string placeholder uses. It comes with its inverse on digit strings and an
  injectivity lemma.
- `Collatz` (`collatz.dfy`) holds the method `Collatz`, which keeps the loop
  over a local copy of `n`. Beside it are the specification function
  `CollatzOutcome` and lemmas about the trajectory function `Iterate`.
- `Dispatch` (`dispatch.dfy`) holds the build loop `BuildTaskList` and
  `starmap` as the order-preserving map `StarMap`. `Collect` is the pool's
  wait for every result. `CheckCollatzUntil` and its specification `Batch`
  put these together, with the end-to-end lemmas.

Nobody knows whether the Collatz iteration ends for every start value (this is
the Collatz conjecture). So every run here takes a step bound `fuel: nat`. A
run that needs more steps returns `OutOfFuel`, where the program would keep
looping. A run that finishes returns the message the program returns, as long
as the program's float arithmetic stays exact and the int fits the
interpreter's digit limit for conversion to text (see "## Left out"). The lemmas
`IterateFuelMonotone` and `BatchFuelMonotone` prove that a larger bound never
changes the result of a run that finishes.

For `n <= 0` the code returns an empty list, because `range(1, n + 1)` is
empty. The model does the same. It does not reject such bounds.

## Model

| member | source | states |
|---|---|---|
| Decimal.NatToString | example.py:12 | the text of `{n}` for `n >= 0` is a non-empty string of decimal digits; it is one digit exactly when `n < 10`, and it starts with '0' only when it is "0" |
| Decimal.NatRoundTrip | example.py:12 | reading back the digits that `NatToString` writes gives the number again |
| Decimal.IntToString | example.py:12 | the text of `{n}` starts with '-' exactly when `n < 0`, and holds only digits after that sign, with no leading zero (for `n >= 0` it starts with '0' only when `n == 0`) |
| Decimal.IntRoundTrip | example.py:12 | the digits after the optional '-' denote the magnitude of `n`, so the text stands for the value of `n` |
| Decimal.NatToStringInjective | example.py:12 | different natural numbers have different digit strings |
| Decimal.IntToStringInjective | example.py:12 | different integers have different decimal texts |
| Collatz.Message | example.py:12 | the f-string `"Checked for {n}: {msg}"`: it starts with "Checked for ", ends with `msg`, and is as long as the prefix, the text of `n`, ": " and `msg` together |
| Collatz.Step | example.py:18-21 | one loop pass on `n > 1`: an even `n` is halved exactly, an odd `n` becomes `3n + 1 > 1`, and the new value is `>= 1` either way |
| Collatz.Iterate | example.py:17-21 | the value after at most `k` passes: it is `n` itself when `n <= 1`, it stays `>= 1` from a start `>= 1`, and so a loop that stops from `n > 1` stops at exactly 1 |
| Collatz.ExitAtOne | example.py:17-21 | a loop started from a value `>= 1` that stops within the bound stops at exactly 1 |
| Collatz.CollatzOutcome | example.py:12-22 | `collatz` returns exactly when the trajectory reaches a value `<= 1` within the bound; it then returns the message built from the input `n`; for `n <= 1` it always returns that message |
| Collatz.IterateFuelMonotone | example.py:17-21 | once the loop has stopped within `k` steps, any larger bound gives the same final value |
| Collatz.CollatzOutcomeFuelMonotone | example.py:17-22 | a call that returned within a bound returns the same message under any larger bound |
| Collatz.MessageColon | example.py:12 | in the message, the text of `n` runs from the end of "Checked for " up to the first ':' |
| Collatz.MessageInjective | example.py:12 | the message determines both `n` and `msg` |
| Collatz.MessagesDiffer | example.py:12 | calls with different inputs `n` and the same `msg` return different messages |
| Collatz.Collatz | example.py:5-22 | the loop on a local copy of `n` keeps it `>= 1` and matches `Iterate`; the result equals `CollatzOutcome`; a returned value is `"Checked for " + text of the input n + ": " + msg`, and for `n <= 1` it returns that value without entering the loop |
| Dispatch.TaskList | example.py:32-36 | reference list for the build loop: length `max(n, 0)`, item `k` is `(k + 1, "Collatz was right!")` |
| Dispatch.BuildTaskList | example.py:32-36 | the task list has length `max(n, 0)`; element `k` is `(k + 1, "Collatz was right!")`; first components are strictly increasing from 1 |
| Dispatch.StarMap | example.py:41 | `starmap` gives one result per task, in task order: result `k` is `f` applied to the two parts of task `k` |
| Dispatch.StarMapChunks | example.py:41 | mapping consecutive chunks of the task list and concatenating the chunk results gives the results of the whole list |
| Dispatch.Collect | example.py:41 | the pool's result list exists exactly when every task returned; it then has one entry per task, in order, each the value that task returned |
| Dispatch.Worker | example.py:41 | what the pool runs per task: a task that returns gives `Message(m, msg)` for its own arguments, and a task with `m <= 1` always returns |
| Dispatch.Batch | example.py:25-43 | function form of `check_collatz_until(n)`: when it returns, it holds `max(n, 0)` entries |
| Dispatch.BatchAt | example.py:33-43 | `check_collatz_until(n)` returns exactly when every `i` in `1..n` reaches 1 within the bound; it then has length `max(n, 0)`, and entry `i - 1` is the message for `(i, "Collatz was right!")` |
| Dispatch.BatchNonPositive | example.py:33-43 | for `n <= 0` the result is the empty list |
| Dispatch.BatchOfOne | example.py:14-15 | `check_collatz_until(1)` is `["Checked for 1: Collatz was right!"]` under any bound |
| Dispatch.BatchFuelMonotone | example.py:41-43 | a batch that finished within a bound gives the same list under any larger bound |
| Dispatch.MessagesDistinct | example.py:12 | messages for the inputs `1, 2, ...` with one fixed `msg` are pairwise different |
| Dispatch.BatchDistinct | example.py:41-43 | the entries of a finished batch are pairwise different, so their order is visible |
| Dispatch.CheckCollatzUntil | example.py:25-43 | builds the tasks, then maps `collatz` over them in order; it returns exactly when every `i` in `1..n` reaches 1 within the bound; it then holds `max(n, 0)` entries, and for every `1 <= i <= n` entry `i - 1` is `"Checked for " + text of i + ": Collatz was right!"`; for `n <= 0` it is empty |

## Left out

- Collatz.Collatz: termination of the loop is not proved, because it is the open Collatz conjecture. Each run takes a step bound `fuel` and reports `OutOfFuel` past it. The program would loop on past that point. The bound changes no result of a run that finishes.
- Collatz.CollatzOutcome: carries the same step bound as `Collatz.Collatz`, for the same reason.
- Dispatch.CheckCollatzUntil: carries the same step bound, passed to every task. A task that does not finish within it stands for a pool call that never returns.
- Collatz.Step: Python's `n /= 2` is true division and turns `n` into a float. The model does exact integer halving instead. The two agree while the values stay within float precision (below 2^53). Above that, rounding can change the trajectory, so whether and when the float loop stops can differ from the model. For inputs whose half is beyond float range (about 1.8e308, for example `10**400`), `n /= 2` raises `OverflowError`, where the model halves exactly and returns the message. The message is built before the loop runs, so it never sees the float.
- `multiprocessing.Pool` creation and teardown, the sizing by CPU count, and the parallel scheduling of tasks over worker processes are not modelled. These are concurrency inside a foreign library. Only `starmap`'s contract is modelled, as the sequential map `StarMap`: one result per task, in input order, once all tasks are done.
- Collatz.Message: the model formats ints of any length, as Python does with the digit limit turned off (`PYTHONINTMAXSTRDIGITS=0`). By default Python (3.11 on, and the 3.10.7/3.9.14/3.8.14/3.7.14 security releases) refuses to convert an int of more than 4300 digits to text and raises `ValueError` at the f-string, so for `|n| >= 10**4300` the program raises, including when `n <= 1`, where the model returns the message.
- Errors raised in a worker and passed on by the pool are not modelled. On integer input `collatz` can raise the `ValueError` of the digit limit (see Collatz.Message) and the `OverflowError` of `n /= 2` on huge values (see Collatz.Step).
- There is no timing wrapper, command line or logging to model: the file has none.
