/**
 * `ScheduledTimer` as a sequential state machine: a one-shot timer that is
 * re-armed after each run of the asynchronous delegate, a cancellation
 * source per schedule, and a semaphore of capacity one around the delegate.
 * What the awaited calls do (the semaphore wait, the delegate's run) is an
 * input; an invocation is split at its `await` into `BeginInvoke` and
 * `EndInvoke`, so that other calls (`Stop`, `Start`) can happen in between.
 */
module ScheduledTimers {
  import opened Wrappers

  /** `CancellationTokenSource`, with its token. */
  class CancellationSource {
    var cancelled: bool

    constructor ()
      ensures !cancelled
    {
      cancelled := false;
    }

    method Cancel()
      modifies this
      ensures cancelled
    {
      cancelled := true;
    }
  }

  /** How the awaited `semaphoreSlim.WaitAsync(token)` ended. */
  datatype WaitOutcome = Acquired | WaitCancelled

  /** How the awaited delegate ended. */
  datatype RunOutcome = Completed | Faulted

  datatype TimerError =
    | InvalidInterval     // ArgumentException from `Timer.Interval`
    | OperationCanceled   // the semaphore wait was cancelled
    | NotInitialized      // "AsyncDelegate not initialized."
    | DelegateFault       // the delegate threw

  /** `new Timer()`: 100 milliseconds until told otherwise. */
  const DefaultInterval: int := 100

  /** The semaphore's initial and maximum count. */
  const SemaphoreCapacity: nat := 1

  class ScheduledTimer {
    /** `IsScheduled`. */
    var isScheduled: bool
    /** Whether the underlying timer is running (`timer.Enabled`). */
    var timerEnabled: bool
    /** `timer.AutoReset`: each tick is one-shot. */
    const autoReset: bool
    /** `timer.Interval`, in milliseconds. */
    var interval: int
    /** `cancellationTokenSource`. */
    var source: CancellationSource?
    /** `semaphoreSlim.CurrentCount`. */
    var semaphoreCount: nat
    /** `AsyncDelegate != null`. */
    var hasDelegate: bool

    /**
     * The timer runs only while scheduled, a schedule owns an uncancelled
     * source, and the semaphore never exceeds its capacity.
     */
    ghost predicate Valid()
      reads this, source
    {
      && !autoReset
      && semaphoreCount <= SemaphoreCapacity
      && (timerEnabled ==> isScheduled)
      && (isScheduled ==> source != null && !source.cancelled)
    }

    constructor ()
      ensures Valid()
      ensures !isScheduled && !timerEnabled && !autoReset && interval == DefaultInterval
      ensures source == null && semaphoreCount == SemaphoreCapacity && !hasDelegate
    {
      isScheduled := false;
      timerEnabled := false;
      autoReset := false;
      interval := DefaultInterval;
      source := null;
      semaphoreCount := SemaphoreCapacity;
      hasDelegate := false;
    }

    /** `AsyncDelegate += handler`. */
    method Subscribe()
      modifies this
      ensures hasDelegate
      ensures isScheduled == old(isScheduled) && timerEnabled == old(timerEnabled) && interval == old(interval)
      ensures source == old(source) && semaphoreCount == old(semaphoreCount)
    {
      hasDelegate := true;
    }

    /**
     * `Start(timeSpan)`: when not yet scheduled, set the interval (which
     * throws for a non-positive one), take a fresh cancellation source and
     * start the timer; when already scheduled, do nothing.
     */
    method Start(milliseconds: int) returns (r: Outcome<TimerError>)
      requires Valid()
      modifies this
      ensures Valid()
      ensures old(isScheduled) ==> r == Pass && unchanged(this)
      ensures !old(isScheduled) && milliseconds <= 0 ==> r == Fail(InvalidInterval) && unchanged(this)
      ensures !old(isScheduled) && milliseconds > 0 ==>
        && r == Pass && isScheduled && timerEnabled && interval == milliseconds
        && source != null && fresh(source) && !source.cancelled
        && semaphoreCount == old(semaphoreCount) && hasDelegate == old(hasDelegate)
    {
      if isScheduled {
        return Pass;
      }
      if milliseconds <= 0 {
        return Fail(InvalidInterval);
      }
      interval := milliseconds;
      source := new CancellationSource();
      timerEnabled := true;
      isScheduled := true;
      r := Pass;
    }

    /** `Stop()`: cancel the current source, if any, stop the timer and clear the schedule. */
    method Stop()
      requires Valid()
      modifies this, source
      ensures Valid()
      ensures !isScheduled && !timerEnabled
      ensures source == old(source) && (source != null ==> source.cancelled)
      ensures interval == old(interval) && semaphoreCount == old(semaphoreCount) && hasDelegate == old(hasDelegate)
    {
      if source != null {
        source.Cancel();
      }
      timerEnabled := false;
      isScheduled := false;
    }

    /**
     * `Invoke(token)` up to its `await` of the delegate: stop the timer when
     * scheduled, then wait for the semaphore. A token already cancelled, or
     * cancelled during the wait, ends the invocation with the semaphore not
     * taken and the timer left stopped. A wait that succeeds takes the free
     * semaphore.
     */
    method BeginInvoke(token: CancellationSource, wait: WaitOutcome) returns (r: Outcome<TimerError>)
      requires Valid()
      requires wait == Acquired && !token.cancelled ==> semaphoreCount == SemaphoreCapacity
      modifies this
      ensures Valid()
      ensures timerEnabled == (old(timerEnabled) && !old(isScheduled))
      ensures isScheduled == old(isScheduled) && interval == old(interval)
      ensures source == old(source) && hasDelegate == old(hasDelegate)
      ensures token.cancelled || wait == WaitCancelled ==>
        r == Fail(OperationCanceled) && semaphoreCount == old(semaphoreCount)
      ensures !token.cancelled && wait == Acquired ==> r == Pass && semaphoreCount == 0
    {
      if isScheduled {
        timerEnabled := false;
      }
      if token.cancelled || wait == WaitCancelled {
        return Fail(OperationCanceled);
      }
      semaphoreCount := semaphoreCount - 1;
      r := Pass;
    }

    /**
     * `Invoke(token)` from its `try` on: run the delegate, or throw when
     * there is none; either way release the semaphore and restart the timer
     * exactly when the timer is still scheduled.
     */
    method EndInvoke(run: RunOutcome) returns (r: Outcome<TimerError>)
      requires Valid() && semaphoreCount == 0
      modifies this
      ensures Valid()
      ensures !hasDelegate ==> r == Fail(NotInitialized)
      ensures hasDelegate ==> r == (if run == Completed then Pass else Fail(DelegateFault))
      ensures semaphoreCount == SemaphoreCapacity && timerEnabled == isScheduled
      ensures isScheduled == old(isScheduled) && interval == old(interval)
      ensures source == old(source) && hasDelegate == old(hasDelegate)
    {
      if hasDelegate {
        r := if run == Completed then Pass else Fail(DelegateFault);
      } else {
        r := Fail(NotInitialized);
      }
      // finally
      semaphoreCount := semaphoreCount + 1;
      if isScheduled {
        timerEnabled := true;
      }
    }

    /**
     * `SyncTimer_Elapsed`: the one-shot tick disables the timer, then
     * invokes with the token of the current cancellation source. The handler
     * is `async void`, so a `Fail` here stands for an exception nobody
     * observes, rethrown on the thread pool; only a direct `Invoke` call
     * hands the failure to a caller.
     */
    method Elapsed(wait: WaitOutcome) returns (r: Outcome<TimerError>)
      requires Valid() && timerEnabled
      requires wait == Acquired ==> semaphoreCount == SemaphoreCapacity
      modifies this
      ensures Valid()
      ensures !timerEnabled && isScheduled && interval == old(interval)
      ensures source == old(source) && hasDelegate == old(hasDelegate)
      ensures wait == WaitCancelled ==> r == Fail(OperationCanceled) && semaphoreCount == old(semaphoreCount)
      ensures wait == Acquired ==> r == Pass && semaphoreCount == 0
    {
      timerEnabled := false;  // AutoReset is false
      var token := source;
      r := BeginInvoke(token, wait);
    }
  }

  /**
   * A scheduled tick whose delegate completes leaves the timer armed again
   * with the semaphore free; one whose delegate is missing throws and still
   * does. On a tick the failure reaches no caller: it is an unobserved
   * exception on the thread pool, as in `Elapsed`.
   */
  method TickCycle(t: ScheduledTimer, run: RunOutcome) returns (r: Outcome<TimerError>)
    requires t.Valid() && t.timerEnabled && t.semaphoreCount == SemaphoreCapacity
    modifies t
    ensures t.Valid()
    ensures t.isScheduled && t.timerEnabled && t.semaphoreCount == SemaphoreCapacity
    ensures r == (if !t.hasDelegate then Fail(NotInitialized) else if run == Completed then Pass else Fail(DelegateFault))
  {
    var begun := t.Elapsed(Acquired);
    r := t.EndInvoke(run);
  }

  /**
   * `Stop` while the delegate runs: the invocation still releases the
   * semaphore, and the timer stays stopped.
   */
  method StopDuringRun(t: ScheduledTimer, run: RunOutcome) returns (r: Outcome<TimerError>)
    requires t.Valid() && t.timerEnabled && t.semaphoreCount == SemaphoreCapacity
    modifies t, t.source
    ensures t.Valid()
    ensures !t.isScheduled && !t.timerEnabled && t.semaphoreCount == SemaphoreCapacity
  {
    var begun := t.Elapsed(Acquired);
    t.Stop();
    r := t.EndInvoke(run);
  }

  /**
   * A cancelled wait leaves the semaphore untouched and the timer stopped,
   * though the timer is still scheduled: it never ticks again until it is
   * stopped and started anew. The `OperationCanceledException` of a tick
   * escapes the `async void` handler unobserved rather than being returned.
   */
  method CancelledWaitStrandsTimer(t: ScheduledTimer) returns (r: Outcome<TimerError>)
    requires t.Valid() && t.timerEnabled
    modifies t
    ensures t.Valid()
    ensures r == Fail(OperationCanceled)
    ensures t.isScheduled && !t.timerEnabled && t.semaphoreCount == old(t.semaphoreCount)
  {
    r := t.Elapsed(WaitCancelled);
  }
}
