/** The per-item computation: `collatz(n, msg)` formats its message from the
    input `n`, then runs the Collatz iteration on `n` until it reaches a value
    `<= 1`, and returns the message it formatted first.

    Whether that iteration ends for every start value is the open Collatz
    conjecture, so the loop is bounded here by a `fuel` count of steps: a run
    that needs more steps than `fuel` reports `OutOfFuel` (in the program it
    would simply go on). A run that finishes returns the message the program
    returns, as far as the program's float arithmetic stays exact and the int
    fits the interpreter's digit limit for conversion to text. */
module Collatz {
  import opened Decimal

  /** What a bounded run gives back: the program's return value, or the
      information that the step bound was reached first. */
  datatype Outcome<T> = Returned(value: T) | OutOfFuel

  /** The f-string `"Checked for {n}: {msg}"`. */
  function Message(n: int, msg: string): (r: string)
    ensures |r| == |"Checked for "| + |IntToString(n)| + 2 + |msg|
    ensures r[..|"Checked for "|] == "Checked for "
    ensures r[|r| - |msg|..] == msg
  {
    "Checked for " + IntToString(n) + ": " + msg
  }

  /** One pass of the loop body, on a value the loop guard let in: even
      values are halved exactly, odd ones become `3n + 1`. */
  function Step(n: int): (r: int)
    requires n > 1
    ensures r >= 1
    ensures n % 2 == 0 ==> 2 * r == n
    ensures n % 2 == 1 ==> r == 3 * n + 1 && r > 1
  {
    if n % 2 == 0 then n / 2 else 3 * n + 1
  }

  /** The value of the loop variable after at most `k` passes of the loop
      (fewer when the guard `n > 1` fails earlier). */
  function Iterate(n: int, k: nat): (r: int)
    ensures n <= 1 ==> r == n
    ensures n >= 1 ==> r >= 1
    ensures r > 1 ==> n > 1
    decreases k
  {
    if n <= 1 || k == 0 then n else Iterate(Step(n), k - 1)
  }

  /** The trajectory from `n` leaves the loop within `k` steps; started from a
      value `>= 1` it then stands at exactly 1. */
  predicate ReachesOne(n: int, k: nat) {
    Iterate(n, k) <= 1
  }

  /** A loop started from a value `>= 1` that stops within `k` steps stops at
      exactly 1. */
  lemma ExitAtOne(n: int, k: nat)
    requires n >= 1 && ReachesOne(n, k)
    ensures Iterate(n, k) == 1
  {
  }

  /** What `collatz(n, msg)` gives back when it may take at most `fuel` steps. */
  function CollatzOutcome(n: int, msg: string, fuel: nat): (r: Outcome<string>)
    ensures r.Returned? <==> ReachesOne(n, fuel)
    ensures r.Returned? ==> r.value == Message(n, msg)
    ensures n <= 1 ==> r == Returned(Message(n, msg))
  {
    if ReachesOne(n, fuel) then Returned(Message(n, msg)) else OutOfFuel
  }

  /** Once the loop has ended it stays ended: more fuel changes nothing, so the
      bound never alters the output of a run that finishes. */
  lemma {:induction false} IterateFuelMonotone(n: int, k: nat, k': nat)
    requires ReachesOne(n, k) && k <= k'
    ensures Iterate(n, k') == Iterate(n, k)
    decreases k
  {
    if n > 1 && k > 0 {
      IterateFuelMonotone(Step(n), k - 1, k' - 1);
    }
  }

  /** A finished run returns the same message under any larger bound. */
  lemma CollatzOutcomeFuelMonotone(n: int, msg: string, fuel: nat, fuel': nat)
    requires CollatzOutcome(n, msg, fuel).Returned? && fuel <= fuel'
    ensures CollatzOutcome(n, msg, fuel') == CollatzOutcome(n, msg, fuel)
  {
    IterateFuelMonotone(n, fuel, fuel');
  }

  /** In a message the text of `n` runs from the end of the fixed prefix to
      the first ':' after it. */
  lemma MessageColon(n: int, msg: string)
    ensures var m, p, s := Message(n, msg), |"Checked for "|, IntToString(n);
      |m| > p + |s| && m[p + |s|] == ':' &&
      forall j :: p <= j < p + |s| ==> m[j] != ':'
  {
  }

  /** The message names its input: different `n` or different `msg` give
      different messages, since the digits of `n` never contain ':'. */
  lemma MessageInjective(a: int, msgA: string, b: int, msgB: string)
    requires Message(a, msgA) == Message(b, msgB)
    ensures a == b && msgA == msgB
  {
    var sa, sb := IntToString(a), IntToString(b);
    var ma, mb := Message(a, msgA), Message(b, msgB);
    var prefix := "Checked for ";
    assert ma == prefix + sa + ": " + msgA;
    assert mb == prefix + sb + ": " + msgB;
    assert |sa| == |sb| by {
      MessageColon(a, msgA);
      MessageColon(b, msgB);
    }
    assert sa == ma[|prefix|..|prefix| + |sa|];
    assert sb == mb[|prefix|..|prefix| + |sb|];
    IntToStringInjective(a, b);
    assert msgA == ma[|prefix| + |sa| + 2..];
    assert msgB == mb[|prefix| + |sb| + 2..];
  }

  /** Calls with different inputs `n` and the same `msg` return different
      messages. */
  lemma MessagesDiffer(a: int, b: int, msg: string)
    requires a != b
    ensures Message(a, msg) != Message(b, msg)
  {
    if Message(a, msg) == Message(b, msg) {
      MessageInjective(a, msg, b, msg);
    }
  }

  /** `collatz(n, msg)` with its loop bounded by `fuel` steps. The message is
      built from the input `n` before the loop changes the local copy, and a
      run that leaves the loop returns exactly that message. */
  method Collatz(n: int, msg: string, fuel: nat) returns (r: Outcome<string>)
    ensures r == CollatzOutcome(n, msg, fuel)
    ensures n <= 1 ==> r == Returned("Checked for " + IntToString(n) + ": " + msg)
    ensures r.Returned? ==> r.value == "Checked for " + IntToString(n) + ": " + msg
  {
    var finalMsg := Message(n, msg);
    if n <= 1 {
      return Returned(finalMsg);
    }
    var current, left := n, fuel;
    while current > 1 && left > 0
      invariant current >= 1
      invariant Iterate(current, left) == Iterate(n, fuel)
      decreases left
    {
      if current % 2 == 0 {
        current := current / 2;
      } else {
        current := 3 * current + 1;
      }
      left := left - 1;
    }
    if current > 1 {
      return OutOfFuel;
    }
    assert current == 1;
    r := Returned(finalMsg);
  }
}
