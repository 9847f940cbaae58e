/**
 The GPU time line as the CPU sees it. Submitting a command list signals the fence with
 the current command list ID and moves on to the next ID; the GPU completes signalled
 values in its own time.
 */
module FenceTimeline {
  class Timeline {
    var CommandListID: nat
    // The fence value the GPU has reached.
    var Completed: nat

    // Everything below the current command list ID has been signalled.
    ghost predicate Valid()
      reads this
    {
      Completed < CommandListID
    }

    constructor ()
      ensures Valid() && CommandListID == 1 && Completed == 0
    {
      CommandListID, Completed := 1, 0;
    }

    /** Reads the fence; the GPU may have made any amount of progress since the last look. */
    method GetCompletedValue() returns (value: nat)
      requires Valid()
      modifies this`Completed
      ensures Valid() && old(Completed) <= Completed == value
    {
      value :| Completed <= value < CommandListID;
      Completed := value;
    }

    /** Blocks until the fence reaches a value. Waiting for a value that has not been
        signalled would never return, so the caller has to show that it has been. */
    method WaitForSignalled(value: nat)
      requires Valid() && value < CommandListID
      modifies this`Completed
      ensures Valid() && old(Completed) <= Completed && value <= Completed
    {
      var reached :| Completed <= reached < CommandListID && value <= reached;
      Completed := reached;
    }

    /** Signals the fence with the current command list ID and starts the next one. */
    method SubmitFence()
      requires Valid()
      modifies this`CommandListID
      ensures Valid() && CommandListID == old(CommandListID) + 1
    {
      CommandListID := CommandListID + 1;
    }
  }
}
