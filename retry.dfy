/** `LambdaFunction.attempt` (src/index.ts): call an operation up to `attempts` times,
    waiting with a doubling delay after each failure but the last, and return the most
    recent result. The operation is an oracle giving the result of each call in turn; the
    logger calls and the waits are recorded as a trace of effects. */
module Retry {
  import opened Wrappers
  import Decimal

  /** `ILambdaResponse<Nullable<T>>`: a tagged result whose content may be null. */
  datatype Response<T> = Response(hasError: bool, content: Option<T>)

  /** A message given to the logger. */
  datatype Message =
    | Retrying(attempt: int, attempts: int)  // `retrying attempt (i/attempts-1)`
    | Waiting(seconds: int)                  // `trying again in delay seconds`
    | Failed                                 // `failed to invoke lambda function`
  {
    /** The text the logger receives. */
    function Text(): (s: string)
      ensures |s| > 0
    {
      match this
      case Retrying(i, n) =>
        "retrying attempt (" + Decimal.IntToText(i) + "/" + Decimal.IntToText(n - 1) + ")"
      case Waiting(d) => "trying again in " + Decimal.IntToText(d) + " seconds"
      case Failed => "failed to invoke lambda function"
    }
  }

  /** What one pass of the loop does to the outside world. */
  datatype Effect<T> =
    | Call(index: nat)                            // the operation is called (0-based count)
    | Info(message: Message)                      // logger.info
    | Error(message: Message, detail: Option<T>)  // logger.error with the failed content
    | Sleep(seconds: int)                         // the wait between two attempts

  /** The result returned when no call is made: `{ hasError: false, content: null }`. */
  function Initial<T>(): Response<T> {
    Response(false, None)
  }

  /** Whether the loop leaves right after the call with index `i`: it was the last
      allowed call, or it succeeded. */
  predicate Stops<T>(op: nat -> Response<T>, attempts: int, i: nat) {
    i == attempts - 1 || !op(i).hasError
  }

  /** One past the index of the last call, when the loop is entered with index `i`. */
  function StopIndex<T>(op: nat -> Response<T>, attempts: int, i: nat): (n: nat)
    ensures i < attempts ==> i < n <= attempts
    ensures i >= attempts ==> n == i
    ensures i < attempts ==> Stops(op, attempts, n - 1)
    ensures forall j :: i <= j < n - 1 ==> op(j).hasError
    decreases attempts - i
  {
    if i >= attempts then i
    else if Stops(op, attempts, i) then i + 1
    else StopIndex(op, attempts, i + 1)
  }

  /** How many times the operation is called. */
  function CallCount<T>(op: nat -> Response<T>, attempts: int): nat {
    StopIndex(op, attempts, 0)
  }

  /** The value `attempt` returns: the last call's result, or the initial one. */
  function Outcome<T>(op: nat -> Response<T>, attempts: int): Response<T> {
    var n := CallCount(op, attempts);
    if n == 0 then Initial() else op(n - 1)
  }

  /** The delay in force during the pass with index `j`: doubled once per earlier pass. */
  function DelayAt(delay: int, j: nat): int {
    if j == 0 then delay else 2 * DelayAt(delay, j - 1)
  }

  /** The message logged before every call but the first. */
  function Prologue<T>(attempts: int, i: nat): seq<Effect<T>> {
    if i > 0 then [Info(Retrying(i, attempts))] else []
  }

  /** What follows a failed call that is not the last: log it, announce the wait, wait. */
  function Pause<T>(detail: Option<T>, delay: int): seq<Effect<T>> {
    [Error(Failed, detail), Info(Waiting(delay)), Sleep(delay)]
  }

  /** The effects of the pass with index `i`, with the current delay `delay`. */
  function Round<T>(op: nat -> Response<T>, attempts: int, i: nat, delay: int): seq<Effect<T>> {
    Prologue(attempts, i) + [Call(i)] + (if Stops(op, attempts, i) then [] else Pause(op(i).content, delay))
  }

  /** The effects of the passes 0, ..., k - 1. */
  function Passes<T>(op: nat -> Response<T>, attempts: int, k: nat, delay: int): seq<Effect<T>> {
    if k == 0 then []
    else Passes(op, attempts, k - 1, delay) + Round(op, attempts, k - 1, DelayAt(delay, k - 1))
  }

  /** The whole trace of the loop. */
  function Trace<T>(op: nat -> Response<T>, attempts: int, delay: int): seq<Effect<T>> {
    Passes(op, attempts, CallCount(op, attempts), delay)
  }

  /** The indices of the calls in a trace, in order. */
  function Calls<T>(t: seq<Effect<T>>): seq<nat> {
    if t == [] then [] else (if t[0].Call? then [t[0].index] else []) + Calls(t[1..])
  }

  /** The durations of the waits in a trace, in order. */
  function Sleeps<T>(t: seq<Effect<T>>): seq<int> {
    if t == [] then [] else (if t[0].Sleep? then [t[0].seconds] else []) + Sleeps(t[1..])
  }

  /** The indices 0, 1, ..., n - 1. */
  function Indices(n: nat): (s: seq<nat>)
    ensures |s| == n
  {
    if n == 0 then [] else Indices(n - 1) + [n - 1]
  }

  /** The first `m` delays: `delay`, then each twice the one before. */
  function Delays(delay: int, m: nat): (s: seq<int>)
    ensures |s| == m
  {
    if m == 0 then [] else Delays(delay, m - 1) + [DelayAt(delay, m - 1)]
  }

  function Pow2(j: nat): nat {
    if j == 0 then 1 else 2 * Pow2(j - 1)
  }

  /** The k-th index is k. */
  lemma {:induction false} IndicesAt(n: nat, k: nat)
    requires k < n
    ensures Indices(n)[k] == k
  {
    if k < n - 1 {
      IndicesAt(n - 1, k);
    }
  }

  /** The j-th delay (0-based) is delay * 2^j. */
  lemma {:induction false} DelayAtPower(delay: int, j: nat)
    ensures DelayAt(delay, j) == delay * Pow2(j)
  {
    if j > 0 {
      DelayAtPower(delay, j - 1);
      assert 2 * (delay * Pow2(j - 1)) == delay * (2 * Pow2(j - 1));
    }
  }

  /** The j-th wait of a list of delays is delay * 2^j. */
  lemma {:induction false} DelaysAt(delay: int, m: nat, j: nat)
    requires j < m
    ensures Delays(delay, m)[j] == delay * Pow2(j)
  {
    if j < m - 1 {
      DelaysAt(delay, m - 1, j);
    } else {
      DelayAtPower(delay, j);
    }
  }

  lemma {:induction false} CallsAppend<T>(a: seq<Effect<T>>, b: seq<Effect<T>>)
    ensures Calls(a + b) == Calls(a) + Calls(b)
  {
    if a != [] {
      assert (a + b)[1..] == a[1..] + b;
      CallsAppend(a[1..], b);
    } else {
      assert a + b == b;
    }
  }

  lemma {:induction false} SleepsAppend<T>(a: seq<Effect<T>>, b: seq<Effect<T>>)
    ensures Sleeps(a + b) == Sleeps(a) + Sleeps(b)
  {
    if a != [] {
      assert (a + b)[1..] == a[1..] + b;
      SleepsAppend(a[1..], b);
    } else {
      assert a + b == b;
    }
  }

  /** The prologue and the pause call nothing; the pause waits once, for `delay`. */
  lemma PrologueAndPause<T>(attempts: int, i: nat, detail: Option<T>, delay: int)
    ensures Calls(Prologue<T>(attempts, i)) == [] && Sleeps(Prologue<T>(attempts, i)) == []
    ensures Calls(Pause(detail, delay)) == [] && Sleeps(Pause(detail, delay)) == [delay]
  {
    var p := Pause(detail, delay);
    assert p[1..][1..][1..] == [];
    assert Calls(p[1..][1..]) == [] && Sleeps(p[1..][1..]) == [delay];
    assert Calls(p[1..]) == [] && Sleeps(p[1..]) == [delay];
    if i > 0 {
      assert Prologue<T>(attempts, i)[1..] == [];
    }
  }

  /** One pass calls the operation once, with its own index, and waits for the current
      delay unless the loop stops after it. */
  lemma RoundCallsAndSleeps<T>(op: nat -> Response<T>, attempts: int, i: nat, delay: int)
    ensures Calls(Round(op, attempts, i, delay)) == [i]
    ensures Sleeps(Round(op, attempts, i, delay)) == if Stops(op, attempts, i) then [] else [delay]
  {
    var pre := Prologue<T>(attempts, i);
    var call: seq<Effect<T>> := [Call(i)];
    var post := if Stops(op, attempts, i) then [] else Pause(op(i).content, delay);
    PrologueAndPause<T>(attempts, i, op(i).content, delay);
    assert Calls(call) == [i] && Sleeps(call) == [] by {
      assert call[1..] == [];
    }
    CallsAppend(pre, call);
    SleepsAppend(pre, call);
    CallsAppend(pre + call, post);
    SleepsAppend(pre + call, post);
  }

  /** The first k passes call the operation with the indices 0, ..., k - 1, once each
      and in order. */
  lemma {:induction false} PassesCalls<T>(op: nat -> Response<T>, attempts: int, k: nat, delay: int)
    ensures Calls(Passes(op, attempts, k, delay)) == Indices(k)
  {
    if k > 0 {
      PassesCalls(op, attempts, k - 1, delay);
      RoundCallsAndSleeps(op, attempts, k - 1, DelayAt(delay, k - 1));
      CallsAppend(Passes(op, attempts, k - 1, delay), Round(op, attempts, k - 1, DelayAt(delay, k - 1)));
    }
  }

  /** Up to the pass where the loop stops, every pass waits once, the j-th time for
      DelayAt(delay, j); the pass where it stops does not wait. */
  lemma {:induction false} PassesSleeps<T>(op: nat -> Response<T>, attempts: int, k: nat, delay: int)
    requires 0 < k <= CallCount(op, attempts)
    ensures Sleeps(Passes(op, attempts, k, delay)) ==
      Delays(delay, if k == CallCount(op, attempts) then k - 1 else k)
  {
    var n := CallCount(op, attempts);
    var prev := Passes(op, attempts, k - 1, delay);
    var last := Round(op, attempts, k - 1, DelayAt(delay, k - 1));
    RoundCallsAndSleeps(op, attempts, k - 1, DelayAt(delay, k - 1));
    SleepsAppend(prev, last);
    if k - 1 > 0 {
      PassesSleeps(op, attempts, k - 1, delay);
    }
    if k < n {
      assert op(k - 1).hasError;
      assert !Stops(op, attempts, k - 1);
    } else {
      assert Stops(op, attempts, k - 1);
    }
  }

  /** The calls and the waits of the whole loop. */
  lemma TraceShape<T>(op: nat -> Response<T>, attempts: int, delay: int)
    ensures Calls(Trace(op, attempts, delay)) == Indices(CallCount(op, attempts))
    ensures CallCount(op, attempts) > 0 ==>
      Sleeps(Trace(op, attempts, delay)) == Delays(delay, CallCount(op, attempts) - 1)
  {
    PassesCalls(op, attempts, CallCount(op, attempts), delay);
    if CallCount(op, attempts) > 0 {
      PassesSleeps(op, attempts, CallCount(op, attempts), delay);
    }
  }

  /** The loop, as written: reassign the result on every pass, double the delay after
      every wait, leave after the last allowed call or the first success. */
  method Attempt<T>(attempts: int, delay: int, op: nat -> Response<T>)
    returns (res: Response<T>, trace: seq<Effect<T>>)
    ensures trace == Trace(op, attempts, delay)
    ensures res == Outcome(op, attempts)
    ensures Calls(trace) == Indices(CallCount(op, attempts))
    ensures attempts > 0 ==> Sleeps(trace) == Delays(delay, |Calls(trace)| - 1)
  {
    res := Response(false, None);
    trace := [];
    var d := delay;
    var i: nat := 0;
    while i < attempts
      invariant i == 0 || i < attempts
      invariant i == 0 ==> res == Initial()
      invariant d == DelayAt(delay, i)
      invariant trace == Passes(op, attempts, i, delay)
      invariant StopIndex(op, attempts, i) == CallCount(op, attempts)
      decreases attempts - i
    {
      var round: seq<Effect<T>> := [];
      if i > 0 {
        round := [Info(Retrying(i, attempts))];
      }
      res := op(i);
      round := round + [Call(i)];

      // the last attempt is not followed by a wait; on success, leave at once
      if i == attempts - 1 || !res.hasError {
        trace := trace + round;
        break;
      }

      round := round + Pause(res.content, d);
      trace := trace + round;
      d := d * 2;
      i := i + 1;
    }
    TraceShape(op, attempts, delay);
  }

  /** The loop stops at the first success: every call before it failed and none follows. */
  lemma {:induction false} StopIndexAtFirstSuccess<T>(op: nat -> Response<T>, attempts: int, i: nat, k: nat)
    requires i <= k < attempts && !op(k).hasError
    requires forall j :: i <= j < k ==> op(j).hasError
    ensures StopIndex(op, attempts, i) == k + 1
    decreases k - i
  {
    if i < k && !Stops(op, attempts, i) {
      StopIndexAtFirstSuccess(op, attempts, i + 1, k);
    }
  }

  /** When every call fails, the loop runs to the end. */
  lemma {:induction false} StopIndexAllFail<T>(op: nat -> Response<T>, attempts: int, i: nat)
    requires i < attempts
    requires forall j :: i <= j < attempts ==> op(j).hasError
    ensures StopIndex(op, attempts, i) == attempts
    decreases attempts - i
  {
    if !Stops(op, attempts, i) {
      StopIndexAllFail(op, attempts, i + 1);
    }
  }

  /** An operation that always fails is called exactly `attempts` times, and the last
      failure is what comes back. */
  lemma AllFailuresUseEveryAttempt<T>(op: nat -> Response<T>, attempts: int)
    requires attempts >= 1
    requires forall j :: 0 <= j < attempts ==> op(j).hasError
    ensures CallCount(op, attempts) == attempts
    ensures Outcome(op, attempts) == op(attempts - 1)
  {
    StopIndexAllFail(op, attempts, 0);
  }

  /** An operation that first succeeds on call k (0-based) is called exactly k + 1 times,
      and that successful result is what comes back. */
  lemma FirstSuccessIsReturned<T>(op: nat -> Response<T>, attempts: int, k: nat)
    requires k < attempts && !op(k).hasError
    requires forall j :: 0 <= j < k ==> op(j).hasError
    ensures CallCount(op, attempts) == k + 1
    ensures Outcome(op, attempts) == op(k)
  {
    StopIndexAtFirstSuccess(op, attempts, 0, k);
  }

  /** A failing outcome means every allowed call failed; a succeeding one, after at least
      one call, is the first success. */
  lemma OutcomeMeaning<T>(op: nat -> Response<T>, attempts: int)
    requires attempts >= 1
    ensures Outcome(op, attempts).hasError ==> forall j :: 0 <= j < attempts ==> op(j).hasError
    ensures !Outcome(op, attempts).hasError ==>
      Outcome(op, attempts) == op(CallCount(op, attempts) - 1) &&
      forall j :: 0 <= j < CallCount(op, attempts) - 1 ==> op(j).hasError
  {
    var n := CallCount(op, attempts);
    if Outcome(op, attempts).hasError {
      assert !Stops(op, attempts, n - 1) || n - 1 == attempts - 1;
    }
  }

  /** With no attempts allowed nothing happens and the initial result comes back. */
  lemma NoAttempts<T>(op: nat -> Response<T>, attempts: int, delay: int)
    requires attempts <= 0
    ensures Trace(op, attempts, delay) == [] && Outcome(op, attempts) == Initial()
  {
  }

  /** There is one wait fewer than there are calls: never one after the last call. */
  lemma SleepsOneFewer<T>(op: nat -> Response<T>, attempts: int, delay: int)
    requires attempts >= 1
    ensures |Sleeps(Trace(op, attempts, delay))| == |Calls(Trace(op, attempts, delay))| - 1
  {
    TraceShape(op, attempts, delay);
  }

  /** The j-th wait (0-based) lasts delay * 2^j. */
  lemma SleepDurations<T>(op: nat -> Response<T>, attempts: int, delay: int, j: nat)
    requires j < |Sleeps(Trace(op, attempts, delay))|
    ensures Sleeps(Trace(op, attempts, delay))[j] == delay * Pow2(j)
  {
    TraceShape(op, attempts, delay);
    if CallCount(op, attempts) > 0 {
      DelaysAt(delay, CallCount(op, attempts) - 1, j);
    }
  }

  /** The trace ends with the last call: nothing, and in particular no wait, follows it. */
  lemma TraceEndsWithCall<T>(op: nat -> Response<T>, attempts: int, delay: int)
    requires attempts >= 1
    ensures var t := Trace(op, attempts, delay);
      |t| > 0 && t[|t| - 1] == Call(CallCount(op, attempts) - 1)
  {
    var n := CallCount(op, attempts);
    var last := Round(op, attempts, n - 1, DelayAt(delay, n - 1));
    assert Stops(op, attempts, n - 1);
    assert last[|last| - 1] == Call(n - 1);
  }

  /** Three failing attempts with an initial delay of 4 seconds wait 4 seconds, then 8. */
  lemma ThreeFailuresWaitFourThenEight<T>(op: nat -> Response<T>)
    requires forall j :: 0 <= j < 3 ==> op(j).hasError
    ensures Calls(Trace(op, 3, 4)) == [0, 1, 2]
    ensures Sleeps(Trace(op, 3, 4)) == [4, 8]
  {
    AllFailuresUseEveryAttempt(op, 3);
    TraceShape(op, 3, 4);
    assert Indices(3) == [0, 1, 2];
    assert Delays(4, 2) == [4, 8];
  }
}
