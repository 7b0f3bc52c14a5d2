/**
  `MessageBoxQueue`: prompts are queued and shown one at a time; the prompt
  being shown must call `SetFree` before the next one is taken. A 500 ms
  timer retries `Show` while prompts wait, and is switched off and disposed
  once the queue is empty.

  The static class becomes one object. An `Action` is an identifier;
  invoking it is the identifier `Show` hands back (and the ghost log
  `shown`). Timer ticks are explicit calls of `OnTimedEvent`.
*/
module MessageBoxQueue {
  import opened Common

  type ActionId = nat

  /** The retry interval given to every timer, in milliseconds. */
  const RetryInterval: int := 500

  /** `System.Timers.Timer`, reduced to the state the queue touches. */
  class Timer {
    var Interval: int
    var Enabled: bool
    var Subscribed: bool   // OnTimedEvent is attached to Elapsed
    var Disposed: bool

    /** `new Timer()`: 100 ms, not running, no handler. */
    constructor ()
      ensures Interval == 100 && !Enabled && !Subscribed && !Disposed
    {
      Interval := 100;
      Enabled := false;
      Subscribed := false;
      Disposed := false;
    }
  }

  class MessageBoxQueue {
    var queue: seq<ActionId>
    var displaying: bool
    var timer: Timer?
    ghost var added: seq<ActionId>      // every action ever passed to Add, in order
    ghost var shown: seq<ActionId>      // every action invoked, in order
    ghost var shownSinceFree: nat       // actions invoked since the last SetFree

    /**
      The queue's invariant: FIFO (what was added is what was shown followed
      by what waits), a live 500 ms timer exactly while something waits, and
      at most one action invoked since the last SetFree.
    */
    ghost predicate Valid()
      reads this, timer
    {
      && added == shown + queue
      && (queue != [] ==>
            timer != null && timer.Enabled && timer.Subscribed && !timer.Disposed
            && timer.Interval == RetryInterval)
      && (queue == [] && timer != null ==> !timer.Enabled && !timer.Subscribed && timer.Disposed)
      && shownSinceFree <= 1
      && (!displaying ==> shownSinceFree == 0)
    }

    constructor ()
      ensures Valid()
      ensures queue == [] && !displaying && timer == null
      ensures added == [] && shown == [] && shownSinceFree == 0
    {
      queue := [];
      displaying := false;
      timer := null;
      added := [];
      shown := [];
      shownSinceFree := 0;
    }

    /**
      Queues `messageBox` and tries to show the head of the queue. Adding to
      an empty queue first starts a new 500 ms timer.
    */
    method Add(messageBox: ActionId) returns (invoked: Option<ActionId>)
      requires Valid()
      modifies this, timer
      ensures Valid()
      ensures added == old(added) + [messageBox]
      ensures shownSinceFree == if invoked.Some? then 1 else old(shownSinceFree)
      ensures old(queue) == [] ==> fresh(timer) && timer.Interval == RetryInterval
      ensures old(queue) != [] ==> timer == old(timer)
      ensures old(displaying) ==>
        invoked == None && queue == old(queue) + [messageBox] && displaying && shown == old(shown)
      ensures !old(displaying) ==>
        var q := old(queue) + [messageBox];
        && invoked == Some(q[0]) && queue == q[1..] && displaying
        && shown == old(shown) + [q[0]]
      ensures timer != null && (timer.Enabled <==> queue != [])
    {
      if queue == [] {
        timer := new Timer();
        timer.Subscribed := false;
        timer.Subscribed := true;
        timer.Interval := RetryInterval;
        timer.Enabled := true;
      }
      queue := queue + [messageBox];
      added := added + [messageBox];
      invoked := Show();
    }

    /** A tick of the timer. */
    method OnTimedEvent() returns (invoked: Option<ActionId>)
      requires Valid() && timer != null
      modifies this, timer
      ensures Valid() && timer == old(timer) && timer.Interval == old(timer.Interval)
      ensures added == old(added)
      ensures shownSinceFree == if invoked.Some? then 1 else old(shownSinceFree)
      ensures old(displaying) ==>
        invoked == None && queue == old(queue) && displaying && shown == old(shown)
        && timer.Enabled == old(timer.Enabled)
      ensures !old(displaying) && old(queue) != [] ==>
        invoked == Some(old(queue)[0]) && queue == old(queue)[1..] && displaying
        && shown == old(shown) + [old(queue)[0]]
      ensures !old(displaying) && old(queue) == [] ==>
        invoked == None && queue == [] && !displaying && shown == old(shown)
      ensures !old(displaying) ==> (queue == [] ==> !timer.Enabled)
    {
      invoked := Show();
    }

    /**
      While a prompt is displayed nothing changes. Otherwise the head of the
      queue (if any) is taken and invoked, and an empty queue stops and
      disposes the timer.
    */
    method Show() returns (invoked: Option<ActionId>)
      requires Valid() && timer != null
      modifies this, timer
      ensures Valid() && timer == old(timer) && timer.Interval == old(timer.Interval)
      ensures added == old(added)
      ensures shownSinceFree == if invoked.Some? then 1 else old(shownSinceFree)
      ensures old(displaying) ==>
        invoked == None && queue == old(queue) && displaying && shown == old(shown)
        && timer.Enabled == old(timer.Enabled)
      ensures !old(displaying) && old(queue) != [] ==>
        invoked == Some(old(queue)[0]) && queue == old(queue)[1..] && displaying
        && shown == old(shown) + [old(queue)[0]]
      ensures !old(displaying) && old(queue) == [] ==>
        invoked == None && queue == [] && !displaying && shown == old(shown)
      ensures !old(displaying) ==> (queue == [] ==> !timer.Enabled)
    {
      if displaying {
        return None;
      }
      if queue != [] {
        var messageBox := queue[0];
        queue := queue[1..];
        displaying := true;
        invoked := Some(messageBox);
        shown := shown + [messageBox];
        shownSinceFree := 1;
      } else {
        invoked := None;
      }
      if queue == [] {
        timer.Enabled := false;
        timer.Subscribed := false;
        timer.Disposed := true;
      }
    }

    /** The displayed prompt has been answered: the next one may be shown. */
    method SetFree()
      requires Valid()
      modifies this
      ensures Valid()
      ensures !displaying
      ensures queue == old(queue) && timer == old(timer)
      ensures added == old(added) && shown == old(shown)
    {
      displaying := false;
      shownSinceFree := 0;
    }
  }

  /** What a caller or the timer does to the queue. */
  datatype Op = Enqueue(messageBox: ActionId) | Tick | Free

  /** What is observed: an action invoked, or a SetFree call. */
  datatype Step = Invoked(messageBox: ActionId) | Freed

  /** The actions passed to Add, in order. */
  function Enqueued(ops: seq<Op>): (r: seq<ActionId>)
    ensures |r| <= |ops|
  {
    if ops == [] then []
    else Enqueued(ops[..|ops| - 1]) + (if ops[|ops| - 1].Enqueue? then [ops[|ops| - 1].messageBox] else [])
  }

  /** The actions invoked, in order. */
  function Invocations(steps: seq<Step>): (r: seq<ActionId>)
    ensures |r| <= |steps|
  {
    if steps == [] then []
    else Invocations(steps[..|steps| - 1]) + (if steps[|steps| - 1].Invoked? then [steps[|steps| - 1].messageBox] else [])
  }

  /** Every invocation but the last step is followed directly by a SetFree. */
  ghost predicate Alternates(steps: seq<Step>)
  {
    forall i :: 0 <= i < |steps| - 1 && steps[i].Invoked? ==> steps[i + 1] == Freed
  }

  /** The last step, if any, is a SetFree. */
  predicate EndsFreed(steps: seq<Step>)
  {
    steps == [] || steps[|steps| - 1] == Freed
  }

  /** When invocations alternate with SetFree, there is a SetFree between any two invocations. */
  lemma {:induction false} AlternationSeparates(steps: seq<Step>)
    requires Alternates(steps)
    ensures forall i, j :: 0 <= i < j < |steps| && steps[i].Invoked? && steps[j].Invoked? ==>
      Freed in steps[i + 1..j]
  {
    forall i, j | 0 <= i < j < |steps| && steps[i].Invoked? && steps[j].Invoked?
      ensures Freed in steps[i + 1..j]
    {
      assert steps[i + 1] == Freed;
      assert steps[i + 1..j][0] == Freed;
    }
  }

  /** An invocation after a SetFree (or first of all) keeps the alternation. */
  lemma InvokeAfterFree(before: seq<Step>, a: ActionId)
    requires Alternates(before) && EndsFreed(before)
    ensures Alternates(before + [Invoked(a)])
    ensures Invocations(before + [Invoked(a)]) == Invocations(before) + [a]
  {
    assert (before + [Invoked(a)])[..|before|] == before;
  }

  /** A SetFree keeps the alternation and ends it freed. */
  lemma FreeAfter(before: seq<Step>)
    requires Alternates(before)
    ensures Alternates(before + [Freed]) && EndsFreed(before + [Freed])
    ensures Invocations(before + [Freed]) == Invocations(before)
  {
    assert (before + [Freed])[..|before|] == before;
  }

  /** One more operation adds its action, if it is an `Enqueue`. */
  lemma EnqueuedStep(ops: seq<Op>, n: nat)
    requires n < |ops|
    ensures Enqueued(ops[..n + 1]) == Enqueued(ops[..n]) + (if ops[n].Enqueue? then [ops[n].messageBox] else [])
  {
    assert ops[..n + 1][..n] == ops[..n];
  }

  /** One operation on the queue; a tick only happens when a timer exists. */
  method Apply(q: MessageBoxQueue, op: Op) returns (invoked: Option<ActionId>)
    requires q.Valid()
    modifies q, q.timer
    ensures q.Valid()
    ensures q.timer == old(q.timer) || fresh(q.timer)
    ensures q.added == old(q.added) + (if op.Enqueue? then [op.messageBox] else [])
    ensures q.shown == old(q.shown) + (if invoked.Some? then [invoked.value] else [])
    ensures invoked.Some? ==> old(q.shownSinceFree) == 0 && q.shownSinceFree == 1
    ensures op.Free? ==> invoked == None && q.shownSinceFree == 0
    ensures !op.Free? && invoked == None ==> q.shownSinceFree == old(q.shownSinceFree)
  {
    invoked := None;
    match op {
      case Enqueue(a) =>
        invoked := q.Add(a);
      case Tick =>
        if q.timer != null {
          invoked := q.OnTimedEvent();
        }
      case Free =>
        q.SetFree();
    }
  }

  /**
    Runs `ops` against a new queue and reports what was invoked and freed.
    The actions are invoked in the order they were added, and between any
    two invocations there is a SetFree.
  */
  method Replay(ops: seq<Op>) returns (steps: seq<Step>)
    ensures Invocations(steps) <= Enqueued(ops)
    ensures forall i, j :: 0 <= i < j < |steps| && steps[i].Invoked? && steps[j].Invoked? ==>
      Freed in steps[i + 1..j]
  {
    var q := new MessageBoxQueue();
    steps := [];
    var n := 0;
    while n < |ops|
      invariant 0 <= n <= |ops|
      invariant fresh(q) && (q.timer == null || fresh(q.timer))
      invariant q.Valid()
      invariant q.added == Enqueued(ops[..n])
      invariant q.shown == Invocations(steps)
      invariant Alternates(steps)
      invariant q.shownSinceFree == 0 ==> EndsFreed(steps)
    {
      EnqueuedStep(ops, n);
      var invoked := Apply(q, ops[n]);
      if invoked.Some? {
        InvokeAfterFree(steps, invoked.value);
        steps := steps + [Invoked(invoked.value)];
      } else if ops[n].Free? {
        FreeAfter(steps);
        steps := steps + [Freed];
      }
      n := n + 1;
    }
    assert ops[..|ops|] == ops;
    AlternationSeparates(steps);
  }
}
