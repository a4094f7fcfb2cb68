/**
 What the scheduler needs from its users: a queue must not be used before its creation has
 returned, although odp_queue_lookup gives its handle out earlier.
 */
module SchedulerLimits {
  import opened Sequences
  import opened Options
  import opened QueueStatus
  import opened Scheduler
  import opened SchedulerTheorems

  /** One queue and two threads. */
  function Start(): State
  {
    State([Queue(Free, true, 0, [], false, Nowhere, [], [])], Repeat([], PRIOS * PER_PRIO), Repeat(0, PRIOS),
          Repeat(0, PRIOS * PER_PRIO), [Thread([], 0, None, Ready), Thread([], 0, None, Ready)], [])
  }

  /**
   The first thread has set the status of a new queue and not yet made its command; the second
   finds the queue and enqueues.  The queue is then scheduled and has no command.
   */
  lemma EarlyUseBreaks() returns (run: seq<State>)
    ensures IsRun(true, run) && !Conserved(Last(run))
    ensures |Last(run).queues| == 1 && Last(run).queues[0].status.Sched? && Last(run).queues[0].list != []
    ensures !Last(run).queues[0].cmd
  {
    var s0 := Start();
    var s1 := Apply(s0, 0, Create(0, true, 0));
    var s2 := Apply(s1, 1, Enqueue(0, 1));
    run := [s0, s1, s2];
    assert Next(true, s0, s1);
    assert Next(true, s1, s2);
    assert !ConservedAt(s2, 0);
  }

  /** Commands are conserved in every run if and only if no queue is used before its creation has returned. */
  lemma ConservedIffPatient(early: bool)
    ensures !early <==> forall run :: IsRun(early, run) ==> Conserved(Last(run))
  {
    if early {
      var run := EarlyUseBreaks();
      assert IsRun(early, run);
    } else {
      forall run | IsRun(early, run)
        ensures Conserved(Last(run))
      {
        TokenConservation(run);
      }
    }
  }
}
