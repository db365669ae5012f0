/** Unboundedly many threads of the concurrent state machines. */
module Threads {
  type Thread = nat

  /** A thread beyond all those in the set. */
  ghost function Fresh(threads: set<Thread>): (t: Thread)
    ensures forall u :: u in threads ==> u < t
  {
    if threads == {} then 0
    else
      var u :| u in threads;
      var t := Fresh(threads - {u});
      assert forall v :: v in threads && v != u ==> v in threads - {u};
      if t > u then t else u + 1
  }
}
