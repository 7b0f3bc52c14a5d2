/**
  `System.Threading.CancellationTokenSource`, reduced to what the updater
  observes: whether cancellation has been requested, and `Cancel()`.
*/
module Cancellation {

  class CancellationTokenSource {
    var IsCancellationRequested: bool

    constructor ()
      ensures !IsCancellationRequested
    {
      IsCancellationRequested := false;
    }

    /** Requests cancellation; requesting it again changes nothing. */
    method Cancel()
      modifies this
      ensures IsCancellationRequested
    {
      IsCancellationRequested := true;
    }
  }
}
