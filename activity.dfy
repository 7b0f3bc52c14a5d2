/**
  `Activity<T>`: runs a task against a timeout and either hands back the
  task's own outcome or throws `OperationCanceledException`.

  The race `Task.WhenAny(task, Task.Delay(timeout))` is an input (`Race`):
  which of the two finished first. A task is represented by how awaiting it
  ends once it has settled. Timeouts are whole milliseconds; `0` is
  `default(TimeSpan)`.
*/
module Activity {
  import opened Common
  import opened Cancellation

  /** How awaiting a task ends. */
  datatype Task<T> = RanToCompletion(result: T) | Faulted(error: string) | Canceled

  /** The exceptions `Run` can throw. */
  datatype Exception =
    | OperationCanceled       // ThrowIfCancellationRequested on the activity's token
    | TaskCanceled            // awaiting a task that was itself canceled
    | TaskFault(error: string) // the task's own failure, rethrown by `await`
    | NullTaskArgument        // Task.WhenAny given a null task

  /** Either `Run` returns a value or it throws. */
  datatype Outcome<T> = Returned(value: T) | Threw(exception: Exception)

  /** Which side of `Task.WhenAny` completed first. */
  datatype Race = TaskFirst | DelayFirst

  /** The timeout of a fresh activity: `TimeSpan.FromSeconds(10)`. */
  const DefaultTimeout: nat := 10000

  /** What `await task` produces. */
  function Await<T>(task: Task<T>): (r: Outcome<T>)
    ensures r.Returned? <==> task.RanToCompletion?
    ensures r.Returned? ==> r.value == task.result
    ensures task.Faulted? ==> r == Threw(TaskFault(task.error))
    ensures task.Canceled? ==> r == Threw(TaskCanceled)
  {
    match task
    case RanToCompletion(v) => Returned(v)
    case Faulted(e) => Threw(TaskFault(e))
    case Canceled => Threw(TaskCanceled)
  }

  /**
    The outcome of `Run`, given the configured task, the race, and whether the
    token source was already cancelled when `Run` started.
  */
  function RunOutcome<T>(task: Option<Task<T>>, race: Race, cancelledBefore: bool): (r: Outcome<T>)
    // A value comes back only from a task that completed, won the race, on a live token.
    ensures r.Returned? <==>
      task.Some? && task.value.RanToCompletion? && race == TaskFirst && !cancelledBefore
    ensures r.Returned? ==> r.value == task.value.result
    // Losing the race, or a token already cancelled, ends in OperationCanceledException.
    ensures task.Some? && (race == DelayFirst || cancelledBefore) ==> r == Threw(OperationCanceled)
    // Otherwise the task's own failure or cancellation is passed on unchanged.
    ensures task.Some? && race == TaskFirst && !cancelledBefore ==> r == Await(task.value)
    ensures task.None? ==> r == Threw(NullTaskArgument)
  {
    if task.None? then Threw(NullTaskArgument)
    else if race == DelayFirst || cancelledBefore then Threw(OperationCanceled)
    else
      assert race == TaskFirst;
      Await(task.value)
  }

  class Activity<T> {
    var tokenSource: CancellationTokenSource?
    var task: Option<Task<T>>
    var timeout: nat

    constructor ()
      ensures tokenSource == null && task == None && timeout == DefaultTimeout
    {
      tokenSource := null;
      task := None;
      timeout := DefaultTimeout;
    }

    /**
      Replaces the task and the token source; the timeout changes only when
      the argument is not the default (zero).
    */
    method Setup(task: Task<T>, cancellationTokenSource: CancellationTokenSource?, timeout: nat)
      modifies this
      ensures this.task == Some(task) && tokenSource == cancellationTokenSource
      ensures this.timeout == if timeout != 0 then timeout else old(this.timeout)
    {
      tokenSource := cancellationTokenSource;
      this.task := Some(task);
      this.timeout := if timeout != 0 then timeout else this.timeout;
    }

    method ForTask(task: Task<T>) returns (self: Activity<T>)
      modifies this
      ensures self == this
      ensures this.task == Some(task)
      ensures tokenSource == old(tokenSource) && timeout == old(timeout)
    {
      this.task := Some(task);
      self := this;
    }

    method Wait(timeout: nat) returns (self: Activity<T>)
      modifies this
      ensures self == this
      ensures this.timeout == timeout
      ensures tokenSource == old(tokenSource) && task == old(task)
    {
      this.timeout := timeout;
      self := this;
    }

    method WithToken(token: CancellationTokenSource?) returns (self: Activity<T>)
      modifies this
      ensures self == this
      ensures tokenSource == token
      ensures task == old(task) && timeout == old(timeout)
    {
      tokenSource := token;
      self := this;
    }

    /**
      Races the task against the timeout. A missing token source is created
      here; a supplied one is used (and cancelled on timeout) as it is.
    */
    method Run(race: Race) returns (outcome: Outcome<T>)
      modifies this, tokenSource
      ensures old(tokenSource) != null ==> tokenSource == old(tokenSource)
      ensures old(tokenSource) == null ==> tokenSource != null && fresh(tokenSource)
      ensures task == old(task) && timeout == old(timeout)
      ensures outcome == RunOutcome(task, race,
        old(tokenSource != null && tokenSource.IsCancellationRequested))
      ensures tokenSource.IsCancellationRequested <==>
        old(tokenSource != null && tokenSource.IsCancellationRequested) || (task.Some? && race == DelayFirst)
    {
      if tokenSource == null {
        tokenSource := new CancellationTokenSource();
      }
      var run := task;
      if run.None? {
        // Task.WhenAny refuses a null task before anything is awaited
        return Threw(NullTaskArgument);
      }
      if race == DelayFirst {
        tokenSource.Cancel();
      }
      if tokenSource.IsCancellationRequested {
        return Threw(OperationCanceled);
      }
      outcome := Await(run.value);
    }
  }

  /** The task of the tests: `Add(9)` waits 500 ms and yields 10. */
  const AddNine: Task<int> := RanToCompletion(9 + 1)

  /**
    `Setup(task, 600)`: the 500 ms task beats the 600 ms timer and its value
    comes back. Durations are not modelled: the race is fixed by hand
    (`TaskFirst`), so the 600 plays no part in the proof.
  */
  method CanRunTaskWithinTimeLimit() returns (count: Outcome<int>)
    ensures count == Returned(10)
  {
    var activity := new Activity<int>();
    activity.Setup(AddNine, null, 600);
    count := activity.Run(TaskFirst);
  }

  /**
    `ForTask(task).Wait(600).Run()`: the fluent form gives the same value.
    As above, the race is fixed by hand and the 600 plays no part.
  */
  method CanRunTaskWithinTimeLimitFluent() returns (count: Outcome<int>)
    ensures count == Returned(10)
  {
    var activity := new Activity<int>();
    var a := activity.ForTask(AddNine);
    a := a.Wait(600);
    count := a.Run(TaskFirst);
  }

  /**
    `Setup(task, 100)`: the 100 ms timer wins, and Run throws
    OperationCanceledException. The race is fixed by hand (`DelayFirst`),
    so the 100 plays no part; this instance of `RunOutcome` is what the
    test checks.
  */
  method ThrowErrorWhenTimeout() returns (count: Outcome<int>)
    ensures count == Threw(OperationCanceled)
  {
    var activity := new Activity<int>();
    activity.Setup(AddNine, null, 100);
    count := activity.Run(DelayFirst);
  }
}
