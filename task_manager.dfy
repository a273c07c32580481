/** The process-wide cancellation registry: the set of user ids whose current
    transfer has been marked for cancellation by `/cancel`. */
module Tasks {

  class TaskManager {
    var cancelledUsers: set<int>

    /** A registry with no cancelled user. */
    constructor ()
      ensures cancelledUsers == {}
    {
      cancelledUsers := {};
    }

    /** Marks `userId`; every other user's mark is as before. */
    method Cancel(userId: int)
      modifies this
      ensures cancelledUsers == old(cancelledUsers) + {userId}
      ensures IsCancelled(userId)
      ensures forall u :: u != userId ==> (IsCancelled(u) <==> old(IsCancelled(u)))
    {
      cancelledUsers := cancelledUsers + {userId};
    }

    /** The non-blocking query; reads the set and changes nothing. */
    predicate IsCancelled(userId: int)
      reads this
    {
      userId in cancelledUsers
    }

    /** Removes the mark of `userId` if there is one (`set.discard`: a user
        who was never marked is no error); every other user is as before. */
    method Clear(userId: int)
      modifies this
      ensures cancelledUsers == old(cancelledUsers) - {userId}
      ensures !IsCancelled(userId)
      ensures forall u :: u != userId ==> (IsCancelled(u) <==> old(IsCancelled(u)))
      ensures !old(IsCancelled(userId)) ==> cancelledUsers == old(cancelledUsers)
    {
      cancelledUsers := cancelledUsers - {userId};
    }
  }

  /** Cancelling twice in a row leaves the registry as cancelling once. */
  method CancelTwice(tm: TaskManager, userId: int)
    modifies tm
    ensures tm.cancelledUsers == old(tm.cancelledUsers) + {userId}
  {
    tm.Cancel(userId);
    ghost var once := tm.cancelledUsers;
    tm.Cancel(userId);
    assert tm.cancelledUsers == once;
  }

  /** A mark followed by a clear restores the registry exactly when the user
      was not marked before. */
  method CancelThenClear(tm: TaskManager, userId: int)
    modifies tm
    ensures tm.cancelledUsers == old(tm.cancelledUsers) - {userId}
    ensures (tm.cancelledUsers == old(tm.cancelledUsers)) <==> !old(tm.IsCancelled(userId))
  {
    tm.Cancel(userId);
    tm.Clear(userId);
  }
}
