/** The JOB transition table of the pure state machines. */
module States {

  datatype JobState = Ready | Leased | RetryScheduled | Completed | DeadLettered | Cancelled

  // The targets the JOB table lists for a state.
  function JobTargets(s: JobState): set<JobState> {
    match s
    case Ready => {Leased, Cancelled}
    case Leased => {Completed, RetryScheduled, DeadLettered, Cancelled}
    case RetryScheduled => {JobState.Ready, Cancelled}
    case Completed => {}
    case DeadLettered => {}
    case Cancelled => {}
  }

  // transition("job", current, target) returns rather than raises.
  predicate JobTransition(current: JobState, target: JobState) {
    target in JobTargets(current)
  }
}
