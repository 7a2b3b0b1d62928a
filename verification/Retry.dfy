/**
 The retry loop, the handler that gives up after too many consecutive errors, and the wait for an object
 built from both.
 */
module Retry {
  import opened Wrappers

  // ----- Errors -----

  // MaxAttempts and WhileRetrying wrap the error they name last.
  datatype Error =
    | Other(id: int)
    | Canceled
    | DeadlineExceeded
    | WaitTimeout
    | MaxAttempts(limit: int, cause: Option<Error>)
    | WhileRetrying(reason: Error, last: Error)

  /** Whether the error, or one it wraps, says that a wait was cut short. */
  predicate Interrupted(e: Error)
  {
    match e
    case Canceled | DeadlineExceeded | WaitTimeout => true
    case MaxAttempts(_, Some(cause)) => Interrupted(cause)
    case WhileRetrying(_, last) => Interrupted(last)
    case _ => false
  }

  /** The error that e wraps n levels down, if there is one. */
  function NthCause(e: Error, n: nat): Option<Error>
  {
    if n == 0 then Some(e)
    else
      match e
      case MaxAttempts(_, Some(cause)) => NthCause(cause, n - 1)
      case WhileRetrying(_, last) => NthCause(last, n - 1)
      case _ => None
  }

  /** Some error in the chain is one of the three that say so. */
  ghost predicate HasInterruption(e: Error)
  {
    exists n: nat :: NthCause(e, n) in {Some(Canceled), Some(DeadlineExceeded), Some(WaitTimeout)}
  }

  lemma {:induction false} InterruptedExactly(e: Error)
    ensures Interrupted(e) <==> HasInterruption(e)
  {
    assert NthCause(e, 0) == Some(e);
    var inner := match e case MaxAttempts(_, cause) => cause case WhileRetrying(_, last) => Some(last) case _ => None;
    if inner.Some? {
      InterruptedExactly(inner.value);
      forall n: nat
        ensures NthCause(e, n + 1) == NthCause(inner.value, n)
      {
      }
      if HasInterruption(inner.value) {
        var n: nat :| NthCause(inner.value, n) in {Some(Canceled), Some(DeadlineExceeded), Some(WaitTimeout)};
        assert NthCause(e, n + 1) == NthCause(inner.value, n);
      }
    }
    if HasInterruption(e) {
      var n: nat :| NthCause(e, n) in {Some(Canceled), Some(DeadlineExceeded), Some(WaitTimeout)};
      if n > 0 {
        assert inner.Some? && NthCause(inner.value, n - 1) == NthCause(e, n);
      }
    }
  }

  // ----- The handler -----

  class ConsecutiveErrorHandler {
    const limit: int
    var attempts: nat

    constructor (limit: int)
      ensures this.limit == limit && attempts == 0
    {
      this.limit, attempts := limit, 0;
    }

    method Handle(err: Option<Error>) returns (r: Option<Error>)
      modifies this
      ensures attempts == if err.None? then 0 else old(attempts) + 1
      ensures r == if attempts <= limit then None else Some(MaxAttempts(limit, err))
    {
      if err.None? {
        attempts := 0;
      } else {
        attempts := attempts + 1;
      }
      if attempts <= limit {
        return None;
      }
      return Some(MaxAttempts(limit, err));
    }
  }

  // ----- Operations and the context -----

  datatype Attempt<O> = Attempt(obj: O, done: bool, err: Option<Error>)

  type Results<!O> = nat -> Attempt<O>

  /** An operation that stores an object on every call, as a closure over a captured variable does. */
  class Operation<O> {
    const results: Results<O>
    var calls: nat
    var obj: O

    constructor (results: Results<O>, zero: O)
      ensures this.results == results && calls == 0 && obj == zero
    {
      this.results, calls, obj := results, 0, zero;
    }

    method Call() returns (done: bool, err: Option<Error>)
      modifies this
      ensures calls == old(calls) + 1
      ensures Attempt(obj, done, err) == results(old(calls))
    {
      var a := results(calls);
      calls := calls + 1;
      obj := a.obj;
      return a.done, a.err;
    }
  }

  datatype ContextState = Live | Cancelled | Expired

  function ContextError(s: ContextState): Error
  {
    if s == Cancelled then Canceled else DeadlineExceeded
  }

  // The context just before attempt i is at tick 2i, and while waiting after it at tick 2i + 1.
  type Context = nat -> ContextState

  const MAX_INT := 0x7FFF_FFFF_FFFF_FFFF

  /** No step limit is configured as zero steps. */
  function StepsOf(configured: nat): nat
  {
    if configured == 0 then MAX_INT else configured
  }

  // ----- What the loop computes -----

  datatype Exit = Exit(calls: nat, err: Option<Error>)

  /** Without a handler an error is never final, and neither is an attempt that returned one. */
  predicate Finishes<O>(a: Attempt<O>, limit: Option<int>)
  {
    a.done && (limit.Some? || a.err.None?)
  }

  // Whether an attempt ends the loop, and the error it ends it with.
  datatype Verdict = Verdict(stop: bool, fatal: Option<Error>)

  /** What one attempt means, when with it this many attempts failed in a row. */
  function AfterAttempt<O>(a: Attempt<O>, limit: Option<int>, failing: nat): Verdict
  {
    if limit.Some? && failing > limit.value then Verdict(true, Some(MaxAttempts(limit.value, a.err)))
    else Verdict(Finishes(a, limit), None)
  }

  function Loop<O>(results: Results<O>, limit: Option<int>, ctx: Context, steps: nat, i: nat, failing: nat): Exit
    decreases steps
  {
    if steps == 0 then Exit(i, Some(WaitTimeout))
    else if ctx(2 * i) != Live then Exit(i, Some(ContextError(ctx(2 * i))))
    else
      var a := results(i);
      var failing' := if a.err.None? then 0 else failing + 1;
      var verdict := AfterAttempt(a, limit, failing');
      if verdict.stop then Exit(i + 1, verdict.fatal)
      else if steps == 1 then Exit(i + 1, Some(WaitTimeout))
      else if ctx(2 * i + 1) != Live then Exit(i + 1, Some(ContextError(ctx(2 * i + 1))))
      else Loop(results, limit, ctx, steps - 1, i + 1, failing')
  }

  /** The error of the last failing call among the first n. */
  function LastError<O>(results: Results<O>, n: nat): Option<Error>
  {
    if n == 0 then None
    else if results(n - 1).err.Some? then results(n - 1).err
    else LastError(results, n - 1)
  }

  /** How many calls at the end of the first n failed in a row. */
  function FailingSuffix<O>(results: Results<O>, n: nat): nat
  {
    if n == 0 || results(n - 1).err.None? then 0 else 1 + FailingSuffix(results, n - 1)
  }

  function Wrapped(err: Option<Error>, last: Option<Error>): Option<Error>
  {
    if err.Some? && Interrupted(err.value) && last.Some? then Some(WhileRetrying(err.value, last.value)) else err
  }

  function DoOutcome<O>(results: Results<O>, limit: Option<int>, ctx: Context, steps: nat): Exit
  {
    var e := Loop(results, limit, ctx, StepsOf(steps), 0, 0);
    Exit(e.calls, Wrapped(e.err, LastError(results, e.calls)))
  }

  function LimitOf(handler: ConsecutiveErrorHandler?): Option<int>
  {
    if handler == null then None else Some(handler.limit)
  }

  /** One attempt as the backoff loop makes it: whether to stop, and the error that makes it stop at once. */
  method TryOnce<O>(op: Operation<O>, handler: ConsecutiveErrorHandler?, lastErr: Option<Error>)
    returns (stop: bool, fatal: Option<Error>, lastErr': Option<Error>)
    requires lastErr == LastError(op.results, op.calls)
    requires handler != null ==> handler.attempts == FailingSuffix(op.results, op.calls)
    modifies op, handler
    ensures op.calls == old(op.calls) + 1 && op.obj == op.results(old(op.calls)).obj
    ensures lastErr' == LastError(op.results, op.calls)
    ensures handler != null ==> handler.attempts == FailingSuffix(op.results, op.calls)
    ensures var a, failing := op.results(old(op.calls)), FailingSuffix(op.results, old(op.calls));
            AfterAttempt(a, LimitOf(handler), if a.err.None? then 0 else failing + 1) == Verdict(stop, fatal)
  {
    var done, err := op.Call();
    lastErr' := if err.Some? then err else lastErr;
    if handler != null {
      err := handler.Handle(err);
      if err.Some? {
        return true, err, lastErr';
      }
    }
    return done && err.None?, None, lastErr';
  }

  /** One round of the backoff loop with this many steps left: how the loop ends in it, if it does. */
  method Round<O>(op: Operation<O>, handler: ConsecutiveErrorHandler?, ctx: Context, steps: nat, lastErr: Option<Error>)
    returns (ends: Option<Exit>, lastErr': Option<Error>)
    requires steps > 0 && lastErr == LastError(op.results, op.calls)
    requires handler != null ==> handler.attempts == FailingSuffix(op.results, op.calls)
    modifies op, handler
    ensures lastErr' == LastError(op.results, op.calls)
    ensures handler != null ==> handler.attempts == FailingSuffix(op.results, op.calls)
    ensures (op.calls == old(op.calls) && op.obj == old(op.obj))
            || (op.calls == old(op.calls) + 1 && op.obj == op.results(old(op.calls)).obj)
    ensures if ends.Some? then ends.value.calls == op.calls else steps > 1
    ensures Loop(op.results, LimitOf(handler), ctx, steps, old(op.calls), FailingSuffix(op.results, old(op.calls)))
            == if ends.Some? then ends.value
               else Loop(op.results, LimitOf(handler), ctx, steps - 1, op.calls, FailingSuffix(op.results, op.calls))
  {
    var i := op.calls;
    if ctx(2 * i) != Live {
      return Some(Exit(i, Some(ContextError(ctx(2 * i))))), lastErr;
    }
    var stop, fatal;
    stop, fatal, lastErr' := TryOnce(op, handler, lastErr);
    if stop {
      return Some(Exit(i + 1, fatal)), lastErr';
    }
    if steps == 1 {
      return Some(Exit(i + 1, Some(WaitTimeout))), lastErr';
    }
    if ctx(2 * i + 1) != Live {
      return Some(Exit(i + 1, Some(ContextError(ctx(2 * i + 1))))), lastErr';
    }
    return None, lastErr';
  }

  method Do<O>(op: Operation<O>, handler: ConsecutiveErrorHandler?, ctx: Context, configuredSteps: nat)
    returns (err: Option<Error>)
    requires op.calls == 0
    requires handler != null ==> handler.attempts == 0
    modifies op, handler
    ensures Exit(op.calls, err) == DoOutcome(op.results, LimitOf(handler), ctx, configuredSteps)
    ensures op.obj == if op.calls == 0 then old(op.obj) else op.results(op.calls - 1).obj
    ensures handler != null ==> handler.attempts == FailingSuffix(op.results, op.calls)
  {
    var lastErr: Option<Error> := None;
    var steps := StepsOf(configuredSteps);
    ghost var exit := Loop(op.results, LimitOf(handler), ctx, steps, 0, 0);
    var ends: Option<Exit> := None;
    while ends.None?
      invariant ends.None? ==> steps > 0
      invariant ends.Some? ==> ends.value == exit && exit.calls == op.calls
      invariant ends.None? ==>
                  exit == Loop(op.results, LimitOf(handler), ctx, steps, op.calls, FailingSuffix(op.results, op.calls))
      invariant lastErr == LastError(op.results, op.calls)
      invariant handler != null ==> handler.attempts == FailingSuffix(op.results, op.calls)
      invariant op.obj == if op.calls == 0 then old(op.obj) else op.results(op.calls - 1).obj
      decreases ends.None?, steps
    {
      ends, lastErr := Round(op, handler, ctx, steps, lastErr);
      steps := steps - 1;
    }
    return Wrapped(ends.value.err, lastErr);
  }

  // ----- What the loop promises -----

  predicate GivesUp<O>(results: Results<O>, limit: Option<int>, calls: nat)
  {
    limit.Some? && FailingSuffix(results, calls) > limit.value
  }

  /** Call j neither ended the loop well nor exceeded the tolerated run of failures. */
  predicate GoesOn<O>(results: Results<O>, limit: Option<int>, j: nat)
  {
    !Finishes(results(j), limit) && !GivesUp(results, limit, j + 1)
  }

  predicate IsCutShort(e: Error)
  {
    e == WaitTimeout || e == Canceled || e == DeadlineExceeded
  }

  /** The error of a context that is done, as the loop returns it. */
  predicate IsContextError(state: ContextState, e: Error)
  {
    (state == Cancelled && e == Canceled) || (state == Expired && e == DeadlineExceeded)
  }

  /** No step was left, or the context was done in the wait after the last call or just before the next. */
  ghost predicate CutShort(ctx: Context, steps: nat, i: nat, calls: nat, e: Error)
    requires i <= calls
  {
    || (calls == i + steps && e == WaitTimeout)
    || (i < calls < i + steps && IsContextError(ctx(2 * calls - 1), e))
    || (calls < i + steps && (calls > i ==> ctx(2 * calls - 1) == Live) && IsContextError(ctx(2 * calls), e))
  }

  /** How a loop that starts with call i and has this many steps can end. */
  ghost predicate EndsWell<O>(results: Results<O>, limit: Option<int>, ctx: Context, steps: nat, i: nat, e: Exit)
  {
    && i <= e.calls <= i + steps
    && (forall tick: nat :: 2 * i <= tick < 2 * e.calls - 1 ==> ctx(tick) == Live)
    && (forall j: nat :: i <= j < e.calls - 1 ==> GoesOn(results, limit, j))
    && (e.err.None? ==> e.calls > i && Finishes(results(e.calls - 1), limit) && !GivesUp(results, limit, e.calls))
    && (e.err.Some? ==>
          || (e.calls > i && GivesUp(results, limit, e.calls)
              && e.err.value == MaxAttempts(limit.value, results(e.calls - 1).err))
          || (CutShort(ctx, steps, i, e.calls, e.err.value) && (e.calls > i ==> GoesOn(results, limit, e.calls - 1))))
  }

  lemma EndsWellFromNext<O>(results: Results<O>, limit: Option<int>, ctx: Context, steps: nat, i: nat, e: Exit)
    requires steps > 1 && ctx(2 * i) == Live && ctx(2 * i + 1) == Live
    requires GoesOn(results, limit, i) && EndsWell(results, limit, ctx, steps - 1, i + 1, e)
    ensures EndsWell(results, limit, ctx, steps, i, e)
  {
    forall tick: nat | 2 * i <= tick < 2 * e.calls - 1
      ensures ctx(tick) == Live
    {
      assert tick == 2 * i || tick == 2 * i + 1 || 2 * (i + 1) <= tick;
    }
  }

  lemma {:induction false} LoopEndsWell<O>(results: Results<O>, limit: Option<int>, ctx: Context, steps: nat, i: nat)
    ensures EndsWell(results, limit, ctx, steps, i, Loop(results, limit, ctx, steps, i, FailingSuffix(results, i)))
    decreases steps
  {
    assert FailingSuffix(results, i + 1) == if results(i).err.None? then 0 else FailingSuffix(results, i) + 1;
    if steps > 1 && ctx(2 * i) == Live && GoesOn(results, limit, i) && ctx(2 * i + 1) == Live {
      LoopEndsWell(results, limit, ctx, steps - 1, i + 1);
      EndsWellFromNext(results, limit, ctx, steps, i, Loop(results, limit, ctx, steps, i, FailingSuffix(results, i)));
    }
  }

  lemma BeforeTheEnd<O>(results: Results<O>, limit: Option<int>, ctx: Context, steps: nat, i: nat, e: Exit, n: nat)
    requires EndsWell(results, limit, ctx, steps, i, e) && i <= n
    ensures n < e.calls ==> ctx(2 * n) == Live && n < i + steps
    ensures i < n < e.calls ==> ctx(2 * n - 1) == Live && GoesOn(results, limit, n - 1)
  {
  }

  lemma NoLaterEnding<O>(results: Results<O>, limit: Option<int>, ctx: Context, steps: nat, i: nat, e: Exit, e': Exit)
    requires EndsWell(results, limit, ctx, steps, i, e) && EndsWell(results, limit, ctx, steps, i, e')
    ensures e'.calls <= e.calls
  {
    BeforeTheEnd(results, limit, ctx, steps, i, e', e.calls);
  }

  /** The ending is determined: there is no other way for the loop to end. */
  lemma OneEnding<O>(results: Results<O>, limit: Option<int>, ctx: Context, steps: nat, i: nat, e: Exit, e': Exit)
    requires EndsWell(results, limit, ctx, steps, i, e) && EndsWell(results, limit, ctx, steps, i, e')
    ensures e == e'
  {
    NoLaterEnding(results, limit, ctx, steps, i, e, e');
    NoLaterEnding(results, limit, ctx, steps, i, e', e);
  }

  /** The retry loop as it is configured; zero steps stand for the largest 64-bit integer. */
  lemma DoEndsAsConfigured<O>(results: Results<O>, limit: Option<int>, ctx: Context, configured: nat)
    ensures var o := DoOutcome(results, limit, ctx, configured);
            var last := LastError(results, o.calls);
            exists err :: EndsWell(results, limit, ctx, if configured == 0 then 0x7FFF_FFFF_FFFF_FFFF else configured, 0,
                                   Exit(o.calls, err))
                          && o.err == if err.Some? && HasInterruption(err.value) && last.Some?
                                      then Some(WhileRetrying(err.value, last.value)) else err
  {
    var steps := StepsOf(configured);
    var e := Loop(results, limit, ctx, steps, 0, 0);
    LoopEndsWell(results, limit, ctx, steps, 0);
    assert e == Exit(e.calls, e.err);
    if e.err.Some? {
      InterruptedExactly(e.err.value);
    }
  }

  /** Call k is done with an error, is reached, and its error is one that the handler tolerates. */
  ghost predicate Swallows<O>(results: Results<O>, limit: Option<int>, k: nat)
  {
    && (forall j: nat :: j < k ==> GoesOn(results, limit, j))
    && results(k).done && results(k).err.Some?
    && Finishes(results(k), limit) && !GivesUp(results, limit, k + 1)
  }

  /** Nil means that the last call was done and reported no error. */
  ghost predicate NilIsGenuine<O>(results: Results<O>, limit: Option<int>, ctx: Context, steps: nat)
  {
    var e := DoOutcome(results, limit, ctx, steps);
    e.err.None? ==> e.calls > 0 && results(e.calls - 1).done && results(e.calls - 1).err.None?
  }

  /** Within one run, nil is not genuine exactly when the last call is one whose error is swallowed. */
  lemma NilIsGenuineUnlessSwallowed<O>(results: Results<O>, limit: Option<int>, ctx: Context, steps: nat)
    ensures var calls := DoOutcome(results, limit, ctx, steps).calls;
            NilIsGenuine(results, limit, ctx, steps) <==> !(calls > 0 && Swallows(results, limit, calls - 1))
  {
    LoopEndsWell(results, limit, ctx, StepsOf(steps), 0);
  }

  function AlwaysLive(): Context
  {
    (tick: nat) => Live
  }

  lemma {:induction false} LoopReaches<O>(results: Results<O>, limit: Option<int>, steps: nat, i: nat, k: nat)
    requires i <= k && steps == k + 1 - i && Swallows(results, limit, k)
    ensures Loop(results, limit, AlwaysLive(), steps, i, FailingSuffix(results, i)) == Exit(k + 1, None)
    decreases steps
  {
    if i < k {
      assert GoesOn(results, limit, i);
      LoopReaches(results, limit, steps - 1, i + 1, k);
    }
  }

  /** A call whose error would be swallowed is the last one of a run that nothing cuts short, which returns nil. */
  lemma DoneWithErrorIsSwallowed<O>(results: Results<O>, limit: Option<int>, k: nat)
    requires Swallows(results, limit, k)
    ensures DoOutcome(results, limit, AlwaysLive(), k + 1) == Exit(k + 1, None)
  {
    LoopReaches(results, limit, k + 1, 0, k);
  }

  /** Nil means done without an error, under every context and step limit, exactly when no call is swallowed. */
  lemma NilMeansDoneWithoutError<O>(results: Results<O>, limit: Option<int>)
    ensures (forall ctx: Context, steps: nat :: NilIsGenuine(results, limit, ctx, steps))
            <==> forall k: nat :: !Swallows(results, limit, k)
  {
    forall k: nat | Swallows(results, limit, k)
      ensures !NilIsGenuine(results, limit, AlwaysLive(), k + 1)
    {
      DoneWithErrorIsSwallowed(results, limit, k);
    }
    if ctx: Context, steps: nat :| !NilIsGenuine(results, limit, ctx, steps) {
      NilIsGenuineUnlessSwallowed(results, limit, ctx, steps);
    }
  }

  /**
   For a handler alone, whatever operation it is used with: nil means done without an error exactly when there
   is no handler or it tolerates no error.
   */
  lemma HandlerIsSafeIff<O>(limit: Option<int>, obj: O)
    ensures (forall results: Results<O>, k: nat :: !Swallows(results, limit, k)) <==> limit.None? || limit.value <= 0
  {
    if limit.Some? && limit.value > 0 {
      var results: Results<O> := (i: nat) => Attempt(obj, true, Some(Other(i)));
      assert FailingSuffix(results, 1) == 1 + FailingSuffix(results, 0) == 1;
      assert Swallows(results, limit, 0);
    }
  }

  lemma {:induction false} FailingSuffixIsShort<O>(results: Results<O>, n: nat)
    ensures FailingSuffix(results, n) <= n
  {
    if n > 0 {
      FailingSuffixIsShort(results, n - 1);
    }
  }

  /** For an operation alone, whatever its handler: exactly when the first call that is done reports no error. */
  lemma OperationIsSafeIff<O>(results: Results<O>)
    ensures (forall limit: Option<int>, k: nat :: !Swallows(results, limit, k))
            <==> forall k: nat :: (forall j: nat :: j < k ==> !results(j).done) ==> !(results(k).done && results(k).err.Some?)
  {
    forall k: nat | (forall j: nat :: j < k ==> !results(j).done) && results(k).done && results(k).err.Some?
      ensures exists limit :: Swallows(results, limit, k)
    {
      var limit := Some(k + 1);
      forall j: nat | j < k
        ensures GoesOn(results, limit, j)
      {
        FailingSuffixIsShort(results, j + 1);
      }
      FailingSuffixIsShort(results, k + 1);
      assert Swallows(results, limit, k);
    }
    forall limit: Option<int>, k: nat | Swallows(results, limit, k)
      ensures forall j: nat :: j < k ==> !results(j).done
    {
      forall j: nat | j < k
        ensures !results(j).done
      {
        assert GoesOn(results, limit, j);
      }
    }
  }

  // ----- Waiting for an object -----

  datatype ReadResult<O> = ReadResult(obj: O, err: Option<Error>)

  type Reads<!O> = nat -> ReadResult<O>

  function AsResults<O>(answers: Reads<O>, ready: O -> bool): Results<O>
  {
    (i: nat) =>
      if answers(i).err.Some? then Attempt(answers(i).obj, false, answers(i).err)
      else Attempt(answers(i).obj, ready(answers(i).obj), None)
  }

  const MAX_CONSECUTIVE := 3

  method WaitFor<O>(answers: Reads<O>, ready: O -> bool, ctx: Context, zero: O) returns (obj: O, err: Option<Error>)
    ensures var e := DoOutcome(AsResults(answers, ready), Some(MAX_CONSECUTIVE), ctx, 0);
            && err == e.err
            && obj == if e.calls == 0 then zero else answers(e.calls - 1).obj
  {
    var handler := new ConsecutiveErrorHandler(MAX_CONSECUTIVE);
    var op := new Operation(AsResults(answers, ready), zero);
    err := Do(op, handler, ctx, 0);
    obj := op.obj;
  }

  predicate Failed<O>(answers: Reads<O>, i: nat)
  {
    answers(i).err.Some?
  }

  predicate IsReady<O>(answers: Reads<O>, ready: O -> bool, i: nat)
  {
    answers(i).err.None? && ready(answers(i).obj)
  }

  /** Reads n - 4 to n - 1 all failed. */
  predicate FourFailed<O>(answers: Reads<O>, n: nat)
  {
    n >= 4 && Failed(answers, n - 1) && Failed(answers, n - 2) && Failed(answers, n - 3) && Failed(answers, n - 4)
  }

  lemma FailingSuffixOfFour<O>(answers: Reads<O>, ready: O -> bool, n: nat)
    ensures FailingSuffix(AsResults(answers, ready), n) > MAX_CONSECUTIVE <==> FourFailed(answers, n)
  {
    var r := AsResults(answers, ready);
    if n >= 1 && FailingSuffix(r, n) > 0 {
      assert FailingSuffix(r, n) == 1 + FailingSuffix(r, n - 1);
      if n >= 2 && FailingSuffix(r, n - 1) > 0 {
        assert FailingSuffix(r, n - 1) == 1 + FailingSuffix(r, n - 2);
        if n >= 3 && FailingSuffix(r, n - 2) > 0 {
          assert FailingSuffix(r, n - 2) == 1 + FailingSuffix(r, n - 3);
        }
      }
    }
  }

  /** The last failure among the first n reads, if any. */
  ghost predicate IsLastFailure<O>(answers: Reads<O>, n: nat, e: Option<Error>)
  {
    match e
    case None => forall j :: 0 <= j < n ==> !Failed(answers, j)
    case Some(_) =>
      exists j :: 0 <= j < n && Failed(answers, j) && answers(j).err == e && forall k :: j < k < n ==> !Failed(answers, k)
  }

  lemma {:induction false} LastErrorIsLastFailure<O>(answers: Reads<O>, ready: O -> bool, n: nat)
    ensures IsLastFailure(answers, n, LastError(AsResults(answers, ready), n))
  {
    if n > 0 {
      var e := LastError(AsResults(answers, ready), n);
      if Failed(answers, n - 1) {
        assert answers(n - 1).err == e;
      } else {
        LastErrorIsLastFailure(answers, ready, n - 1);
      }
    }
  }

  lemma NoEarlierEnd<O>(answers: Reads<O>, ready: O -> bool, calls: nat)
    requires forall j: nat :: j < calls - 1 ==> GoesOn(AsResults(answers, ready), Some(MAX_CONSECUTIVE), j)
    ensures forall j :: 0 <= j < calls - 1 ==> !IsReady(answers, ready, j)
    ensures forall n :: 0 <= n < calls ==> !FourFailed(answers, n)
  {
    forall n | 0 <= n < calls
      ensures !FourFailed(answers, n)
    {
      FailingSuffixOfFour(answers, ready, n);
      if n > 0 {
        assert GoesOn(AsResults(answers, ready), Some(MAX_CONSECUTIVE), n - 1);
      }
    }
    forall j | 0 <= j < calls - 1
      ensures !IsReady(answers, ready, j)
    {
      assert GoesOn(AsResults(answers, ready), Some(MAX_CONSECUTIVE), j);
    }
  }

  lemma AttemptOf<O>(answers: Reads<O>, ready: O -> bool, i: nat)
    ensures var a := AsResults(answers, ready)(i);
            && a.err == answers(i).err
            && (Finishes(a, Some(MAX_CONSECUTIVE)) <==> IsReady(answers, ready, i))
            && (Failed(answers, i) ==> LastError(AsResults(answers, ready), i + 1) == answers(i).err)
  {
  }

  /** How a wait can end, before a cut-short one is given its most recent failure. */
  ghost predicate WaitEndsWell<O>(answers: Reads<O>, ready: O -> bool, ctx: Context, steps: nat, e: Exit)
  {
    && e.calls <= steps
    && (forall tick: nat :: tick < 2 * e.calls - 1 ==> ctx(tick) == Live)
    && (forall j :: 0 <= j < e.calls - 1 ==> !IsReady(answers, ready, j))
    && (forall n :: 0 <= n < e.calls ==> !FourFailed(answers, n))
    && (e.err.None? <==> e.calls > 0 && IsReady(answers, ready, e.calls - 1))
    && (FourFailed(answers, e.calls) ==>
          e.err == Some(MaxAttempts(3, LastError(AsResults(answers, ready), e.calls))))
    && (e.err.Some? && !FourFailed(answers, e.calls) ==> CutShort(ctx, steps, 0, e.calls, e.err.value))
  }

  lemma WaitEndsLikeLoop<O>(answers: Reads<O>, ready: O -> bool, ctx: Context, steps: nat, e: Exit)
    requires EndsWell(AsResults(answers, ready), Some(MAX_CONSECUTIVE), ctx, steps, 0, e)
    ensures WaitEndsWell(answers, ready, ctx, steps, e)
  {
    FailingSuffixOfFour(answers, ready, e.calls);
    NoEarlierEnd(answers, ready, e.calls);
    if e.calls > 0 {
      AttemptOf(answers, ready, e.calls - 1);
    }
  }

  lemma WrappedOutcome(e: Option<Error>, last: Option<Error>)
    requires e.Some? && IsCutShort(e.value)
    ensures Wrapped(e, last) == if last.Some? then Some(WhileRetrying(e.value, last.value)) else e
  {
  }

  /** Giving up after failures that are themselves interruptions is reported like a cut-short wait. */
  lemma WrappedGivingUp(last: Error)
    ensures Wrapped(Some(MaxAttempts(3, Some(last))), Some(last))
            == if HasInterruption(last) then Some(WhileRetrying(MaxAttempts(3, Some(last)), last))
               else Some(MaxAttempts(3, Some(last)))
  {
    InterruptedExactly(last);
  }

  lemma WaitWrapsUp<O>(answers: Reads<O>, ready: O -> bool, ctx: Context, steps: nat, e: Exit)
    requires WaitEndsWell(answers, ready, ctx, steps, e)
    ensures var last := LastError(AsResults(answers, ready), e.calls);
            var err := Wrapped(e.err, last);
            && (err.None? <==> e.err.None?)
            && (FourFailed(answers, e.calls) ==>
                  last.Some? && err == if HasInterruption(last.value)
                                       then Some(WhileRetrying(MaxAttempts(3, last), last.value))
                                       else Some(MaxAttempts(3, last)))
            && (err.Some? && !FourFailed(answers, e.calls) ==>
                  if last.None? then CutShort(ctx, steps, 0, e.calls, err.value)
                  else err.value.WhileRetrying? && err.value.last == last.value
                       && CutShort(ctx, steps, 0, e.calls, err.value.reason))
  {
    var last := LastError(AsResults(answers, ready), e.calls);
    if FourFailed(answers, e.calls) {
      AttemptOf(answers, ready, e.calls - 1);
      WrappedGivingUp(last.value);
    } else if e.err.Some? {
      WrappedOutcome(e.err, last);
    }
  }

  /**
   The wait ends with nil at the first read that succeeds with a ready object, gives up at the first four
   failures in a row, and otherwise is cut short: because the context is done where the loop looks at it, with the
   error of that context, or after as many reads as a 64-bit integer counts. A cut-short wait carries the most recent
   failure.
   */
  lemma WaitForOutcome<O>(answers: Reads<O>, ready: O -> bool, ctx: Context)
    ensures var e := DoOutcome(AsResults(answers, ready), Some(MAX_CONSECUTIVE), ctx, 0);
            var last := LastError(AsResults(answers, ready), e.calls);
            && e.calls <= 0x7FFF_FFFF_FFFF_FFFF
            && (forall tick: nat :: tick < 2 * e.calls - 1 ==> ctx(tick) == Live)
            && (forall j :: 0 <= j < e.calls - 1 ==> !IsReady(answers, ready, j))
            && (forall n :: 0 <= n < e.calls ==> !FourFailed(answers, n))
            && IsLastFailure(answers, e.calls, last)
            && (e.err.None? <==> e.calls > 0 && IsReady(answers, ready, e.calls - 1))
            && (FourFailed(answers, e.calls) ==>
                  last.Some? && e.err == if HasInterruption(last.value)
                                         then Some(WhileRetrying(MaxAttempts(3, last), last.value))
                                         else Some(MaxAttempts(3, last)))
            && (e.err.Some? && !FourFailed(answers, e.calls) ==>
                  if last.None? then CutShort(ctx, 0x7FFF_FFFF_FFFF_FFFF, 0, e.calls, e.err.value)
                  else e.err.value.WhileRetrying? && e.err.value.last == last.value
                       && CutShort(ctx, 0x7FFF_FFFF_FFFF_FFFF, 0, e.calls, e.err.value.reason))
  {
    var results, limit := AsResults(answers, ready), Some(MAX_CONSECUTIVE);
    var e := Loop(results, limit, ctx, StepsOf(0), 0, 0);
    LastErrorIsLastFailure(answers, ready, e.calls);
    LoopEndsWell(results, limit, ctx, StepsOf(0), 0);
    WaitEndsLikeLoop(answers, ready, ctx, StepsOf(0), e);
    WaitWrapsUp(answers, ready, ctx, StepsOf(0), e);
  }

  lemma ReadGoesOn<O>(answers: Reads<O>, ready: O -> bool, j: nat)
    ensures !FourFailed(answers, j + 1) ==> !GivesUp(AsResults(answers, ready), Some(MAX_CONSECUTIVE), j + 1)
    ensures !FourFailed(answers, j + 1) && !IsReady(answers, ready, j) ==>
              GoesOn(AsResults(answers, ready), Some(MAX_CONSECUTIVE), j)
  {
    FailingSuffixOfFour(answers, ready, j + 1);
    AttemptOf(answers, ready, j);
  }

  /** In a context that stays live the first ready read ends the wait, unless four failures in a row come before it. */
  lemma ReadyReadEndsWait<O>(answers: Reads<O>, ready: O -> bool, k: nat)
    requires IsReady(answers, ready, k) && k < 0x7FFF_FFFF_FFFF_FFFF
    requires forall j: nat :: j < k ==> !IsReady(answers, ready, j)
    requires forall n: nat :: n <= k ==> !FourFailed(answers, n)
    ensures DoOutcome(AsResults(answers, ready), Some(MAX_CONSECUTIVE), AlwaysLive(), 0) == Exit(k + 1, None)
  {
    var results, limit, steps := AsResults(answers, ready), Some(MAX_CONSECUTIVE), StepsOf(0);
    forall j: nat | j <= k
      ensures !GivesUp(results, limit, j + 1) && (j < k ==> GoesOn(results, limit, j))
    {
      ReadGoesOn(answers, ready, j);
    }
    AttemptOf(answers, ready, k);
    LoopEndsWell(results, limit, AlwaysLive(), steps, 0);
    OneEnding(results, limit, AlwaysLive(), steps, 0, Loop(results, limit, AlwaysLive(), steps, 0, 0), Exit(k + 1, None));
  }
}
