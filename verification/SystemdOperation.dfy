/**
 Retrying an asynchronous systemd operation until its job ends well. Three parties run interleaved: the
 waiter (the retry loop and the wait inside it), one forwarding goroutine per attempt, and systemd posting
 job results; the context may be cancelled at any moment.
 */
module SystemdOperation {
  import opened Wrappers

  datatype JobResult = Done | Canceled | Timeout | Failed | Dependency | Skipped | OtherResult(text: string)

  predicate Unsuccessful(r: JobResult)
  {
    r.Failed? || r.Timeout?
  }

  // The result posted for a job, in the order of posting.
  datatype Post = Post(job: nat, result: JobResult)

  // A forwarder receives one result on jobChannel and then offers it on resultChannel.
  datatype Stage = AwaitingJob | Offering(post: nat) | Finished

  // `started` is how many results had been posted when the attempt began; `job` is what systemd answered.
  datatype Forwarder = Forwarder(jobChannel: nat, resultChannel: nat, started: nat, job: Option<nat>, stage: Stage)

  datatype OperationError = ChannelGiven | CallFailed | ContextDone | JobFailed(result: JobResult)

  datatype Waiter = Calling | Waiting(channel: nat) | BackingOff(cause: OperationError) | Returned(outcome: Option<OperationError>)

  // Attempts are numbered from 0; attempts - 1 is the current one. `listeners` maps a job to the channel its
  // result goes to, and `consumed` an attempt to the post it received.
  datatype State = State(
    channelGiven: bool,
    ctxDone: bool,
    attempts: nat,
    nextChannel: nat,
    forwarders: map<nat, Forwarder>,
    listeners: map<nat, nat>,
    posts: seq<Post>,
    consumed: map<nat, nat>,
    waiter: Waiter)

  ghost predicate Init(s: State)
  {
    s == State(s.channelGiven, false, 0, 0, map[], map[], [], map[], Calling)
  }

  // ----- Steps -----

  /** A caller's own result channel is refused before the operation is called. */
  ghost predicate Refuse(s: State, t: State)
  {
    && s.waiter.Calling? && s.channelGiven
    && t == s.(attempts := s.attempts + 1, waiter := BackingOff(ChannelGiven))
  }

  function NewForwarder(s: State, job: Option<nat>): Forwarder
  {
    Forwarder(s.nextChannel + 1, s.nextChannel, |s.posts|, job, AwaitingJob)
  }

  /** The call is accepted; systemd may answer with a new job or with one that is already queued. */
  ghost predicate Call(s: State, t: State, job: nat)
  {
    && s.waiter.Calling? && !s.channelGiven
    && t == s.(attempts := s.attempts + 1,
               nextChannel := s.nextChannel + 2,
               forwarders := s.forwarders[s.attempts := NewForwarder(s, Some(job))],
               listeners := s.listeners[job := s.nextChannel + 1],
               waiter := Waiting(s.nextChannel))
  }

  /** The call fails after its forwarder was started; no job is ever listened for. */
  ghost predicate CallFails(s: State, t: State)
  {
    && s.waiter.Calling? && !s.channelGiven
    && t == s.(attempts := s.attempts + 1,
               nextChannel := s.nextChannel + 2,
               forwarders := s.forwarders[s.attempts := NewForwarder(s, None)],
               waiter := BackingOff(CallFailed))
  }

  /** Forwarder k is the one that the result of this job goes to. */
  predicate Listens(s: State, job: nat, k: nat)
  {
    && job in s.listeners && k in s.forwarders
    && s.forwarders[k].jobChannel == s.listeners[job] && s.forwarders[k].stage.AwaitingJob?
  }

  /** Systemd ends a job and hands its result to the forwarder k that listens for it. */
  ghost predicate PostResult(s: State, t: State, job: nat, result: JobResult, k: nat)
  {
    && Listens(s, job, k)
    && t == s.(posts := s.posts + [Post(job, result)],
               listeners := s.listeners - {job},
               forwarders := s.forwarders[k := s.forwarders[k].(stage := Offering(|s.posts|))])
  }

  /** Forwarder k and the waiter meet on the result channel. */
  ghost predicate Deliver(s: State, t: State, k: nat)
  {
    && s.waiter.Waiting? && k in s.forwarders && s.attempts > 0
    && s.forwarders[k].resultChannel == s.waiter.channel && s.forwarders[k].stage.Offering?
    && var post := s.forwarders[k].stage.post;
    && post < |s.posts|
    && var result := s.posts[post].result;
    t == s.(forwarders := s.forwarders[k := s.forwarders[k].(stage := Finished)],
            consumed := s.consumed[s.attempts - 1 := post],
            waiter := if Unsuccessful(result) then BackingOff(JobFailed(result)) else Returned(None))
  }

  ghost predicate Cancel(s: State, t: State)
  {
    t == s.(ctxDone := true)
  }

  ghost predicate Abandon(s: State, t: State)
  {
    s.waiter.Waiting? && s.ctxDone && t == s.(waiter := BackingOff(ContextDone))
  }

  ghost predicate Retry(s: State, t: State)
  {
    s.waiter.BackingOff? && t == s.(waiter := Calling)
  }

  ghost predicate GiveUp(s: State, t: State)
  {
    s.waiter.BackingOff? && s.ctxDone && t == s.(waiter := Returned(Some(s.waiter.cause)))
  }

  datatype Step =
    | RefuseStep | CallStep(job: nat) | CallFailsStep | PostStep(job: nat, result: JobResult, k: nat)
    | DeliverStep(k: nat) | CancelStep | AbandonStep | RetryStep | GiveUpStep

  ghost predicate Takes(s: State, t: State, step: Step)
  {
    match step
    case RefuseStep => Refuse(s, t)
    case CallStep(job) => Call(s, t, job)
    case CallFailsStep => CallFails(s, t)
    case PostStep(job, result, k) => PostResult(s, t, job, result, k)
    case DeliverStep(k) => Deliver(s, t, k)
    case CancelStep => Cancel(s, t)
    case AbandonStep => Abandon(s, t)
    case RetryStep => Retry(s, t)
    case GiveUpStep => GiveUp(s, t)
  }

  /** A run of any interleaving from an initial state. */
  ghost predicate IsRun(states: seq<State>, steps: seq<Step>)
  {
    && |states| == |steps| + 1
    && Init(states[0])
    && forall i {:trigger steps[i]} :: 0 <= i < |steps| ==> Takes(states[i], states[i + 1], steps[i])
  }

  // ----- Invariant -----

  /** Every attempt has channels of its own. */
  ghost predicate OwnChannels(s: State)
  {
    && (forall k :: k in s.forwarders ==>
          && k < s.attempts
          && s.forwarders[k].resultChannel < s.forwarders[k].jobChannel == s.forwarders[k].resultChannel + 1 < s.nextChannel)
    && (forall k, l :: k in s.forwarders && l in s.forwarders && k != l ==>
          s.forwarders[k].resultChannel != s.forwarders[l].resultChannel)
  }

  /** A job's result can only reach a forwarder whose own call was answered with that job. */
  ghost predicate OwnJobs(s: State)
  {
    && (forall job :: job in s.listeners ==> s.listeners[job] < s.nextChannel)
    && (forall job, k :: job in s.listeners && k in s.forwarders && s.forwarders[k].jobChannel == s.listeners[job] ==>
          s.forwarders[k].job == Some(job))
  }

  /** Post p answers the call of attempt k and was posted after that attempt began. */
  ghost predicate Answers(s: State, p: nat, k: nat)
  {
    && k in s.forwarders && p < |s.posts|
    && s.forwarders[k].job == Some(s.posts[p].job)
    && s.forwarders[k].started <= p
  }

  ghost predicate OwnResults(s: State)
  {
    && (forall k :: k in s.forwarders ==> s.forwarders[k].started <= |s.posts|)
    && (forall k :: k in s.forwarders && s.forwarders[k].stage.Offering? ==> Answers(s, s.forwarders[k].stage.post, k))
    && (forall k :: k in s.consumed ==> Answers(s, s.consumed[k], k))
    && (forall k :: k in s.forwarders ==> (s.forwarders[k].stage.Finished? <==> k in s.consumed))
  }

  ghost predicate WaiterOk(s: State)
  {
    match s.waiter
    case Calling => true
    case Waiting(channel) =>
      && s.attempts > 0 && s.attempts - 1 in s.forwarders && s.attempts - 1 !in s.consumed
      && s.forwarders[s.attempts - 1].resultChannel == channel
    case BackingOff(err) =>
      s.attempts > 0
    case Returned(None) =>
      && s.attempts > 0 && s.attempts - 1 in s.consumed
      && s.consumed[s.attempts - 1] < |s.posts|
      && !Unsuccessful(s.posts[s.consumed[s.attempts - 1]].result)
    case Returned(Some(err)) =>
      s.ctxDone && s.attempts > 0
  }

  ghost predicate Inv(s: State)
  {
    OwnChannels(s) && OwnJobs(s) && OwnResults(s) && WaiterOk(s)
  }

  ghost predicate Calls(s: State, t: State, job: Option<nat>)
  {
    if job.Some? then Call(s, t, job.value) else CallFails(s, t)
  }

  lemma CallKeepsChannels(s: State, t: State, job: Option<nat>)
    requires OwnChannels(s) && Calls(s, t, job)
    ensures OwnChannels(t)
  {
  }

  lemma CallKeepsJobs(s: State, t: State, job: Option<nat>)
    requires OwnChannels(s) && OwnJobs(s) && Calls(s, t, job)
    ensures OwnJobs(t)
  {
  }

  lemma CallKeepsResults(s: State, t: State, job: Option<nat>)
    requires OwnChannels(s) && OwnResults(s) && Calls(s, t, job)
    ensures OwnResults(t) && s.attempts !in t.consumed
  {
    forall k | k in s.consumed
      ensures k in s.forwarders && Answers(t, t.consumed[k], k)
    {
      assert Answers(s, s.consumed[k], k);
    }
    forall k | k in t.forwarders && t.forwarders[k].stage.Offering?
      ensures Answers(t, t.forwarders[k].stage.post, k)
    {
      assert Answers(s, s.forwarders[k].stage.post, k);
    }
  }

  lemma CallKeepsInv(s: State, t: State, job: Option<nat>)
    requires Inv(s) && Calls(s, t, job)
    ensures Inv(t)
  {
    CallKeepsChannels(s, t, job);
    CallKeepsJobs(s, t, job);
    CallKeepsResults(s, t, job);
  }

  lemma PostKeepsChannels(s: State, t: State, job: nat, result: JobResult, k: nat)
    requires OwnChannels(s) && OwnJobs(s) && PostResult(s, t, job, result, k)
    ensures OwnChannels(t) && OwnJobs(t)
  {
  }

  lemma PostKeepsResults(s: State, t: State, job: nat, result: JobResult, k: nat)
    requires OwnJobs(s) && OwnResults(s) && PostResult(s, t, job, result, k)
    ensures OwnResults(t)
  {
    forall l | l in s.consumed
      ensures Answers(t, t.consumed[l], l)
    {
      assert Answers(s, s.consumed[l], l);
    }
    forall l | l in t.forwarders && t.forwarders[l].stage.Offering?
      ensures Answers(t, t.forwarders[l].stage.post, l)
    {
      if l != k {
        assert Answers(s, s.forwarders[l].stage.post, l);
      }
    }
  }

  lemma PostKeepsInv(s: State, t: State, job: nat, result: JobResult, k: nat)
    requires Inv(s) && PostResult(s, t, job, result, k)
    ensures Inv(t)
  {
    PostKeepsChannels(s, t, job, result, k);
    PostKeepsResults(s, t, job, result, k);
  }

  lemma DeliverIsToCurrent(s: State, t: State, k: nat)
    requires Inv(s) && Deliver(s, t, k)
    ensures k == s.attempts - 1
    ensures OwnChannels(t) && OwnJobs(t)
  {
  }

  lemma DeliverKeepsResults(s: State, t: State, k: nat)
    requires OwnResults(s) && Deliver(s, t, k) && k == s.attempts - 1
    ensures OwnResults(t)
  {
    assert Answers(s, s.forwarders[k].stage.post, k);
    forall l | l in t.consumed
      ensures Answers(t, t.consumed[l], l)
    {
      if l != k {
        assert Answers(s, s.consumed[l], l);
      }
    }
    forall l | l in t.forwarders && t.forwarders[l].stage.Offering?
      ensures Answers(t, t.forwarders[l].stage.post, l)
    {
      assert Answers(s, s.forwarders[l].stage.post, l);
    }
  }

  lemma DeliverKeepsInv(s: State, t: State, k: nat)
    requires Inv(s) && Deliver(s, t, k)
    ensures k == s.attempts - 1
    ensures Inv(t)
  {
    DeliverIsToCurrent(s, t, k);
    DeliverKeepsResults(s, t, k);
  }

  lemma WaiterStepKeepsInv(s: State, t: State)
    requires Inv(s)
    requires Refuse(s, t) || Cancel(s, t) || Abandon(s, t) || Retry(s, t) || GiveUp(s, t)
    ensures Inv(t)
  {
    forall k | k in s.consumed
      ensures Answers(t, t.consumed[k], k)
    {
      assert Answers(s, s.consumed[k], k);
    }
    forall l | l in t.forwarders && t.forwarders[l].stage.Offering?
      ensures Answers(t, t.forwarders[l].stage.post, l)
    {
      assert Answers(s, s.forwarders[l].stage.post, l);
    }
  }

  lemma StepKeepsInv(s: State, t: State, step: Step)
    requires Inv(s) && Takes(s, t, step)
    ensures Inv(t)
  {
    match step
    case CallStep(job) => CallKeepsInv(s, t, Some(job));
    case CallFailsStep => CallKeepsInv(s, t, None);
    case PostStep(job, result, k) => PostKeepsInv(s, t, job, result, k);
    case DeliverStep(k) => DeliverKeepsInv(s, t, k);
    case _ => WaiterStepKeepsInv(s, t);
  }

  lemma {:induction false} RunKeepsInv(states: seq<State>, steps: seq<Step>, i: nat)
    requires IsRun(states, steps) && i < |states|
    ensures Inv(states[i])
  {
    if i > 0 {
      RunKeepsInv(states, steps, i - 1);
      StepKeepsInv(states[i - 1], states[i], steps[i - 1]);
    }
  }

  // ----- What every run satisfies -----

  /**
   The retry returns nil only when the last attempt received a result that was posted for its own job, after
   the attempt began, and that is neither failed nor timeout; it returns an error only once the context is done.
   */
  lemma ReturnMeansOwnResultOrCancelled(states: seq<State>, steps: seq<Step>, i: nat)
    requires IsRun(states, steps) && i < |states|
    requires states[i].waiter.Returned?
    ensures var s := states[i];
            var last := s.attempts - 1;
            match s.waiter.outcome
            case None =>
              && last in s.consumed && Answers(s, s.consumed[last], last)
              && s.posts[s.consumed[last]].result != JobResult.Failed
              && s.posts[s.consumed[last]].result != JobResult.Timeout
            case Some(_) => s.ctxDone
  {
    RunKeepsInv(states, steps, i);
  }

  /** No attempt ever consumes a result posted before it began, nor one for a job other than its own. */
  lemma ResultsAreNeverConsumedByAnotherAttempt(states: seq<State>, steps: seq<Step>, i: nat, k: nat)
    requires IsRun(states, steps) && i < |states| && k in states[i].consumed
    ensures Answers(states[i], states[i].consumed[k], k)
  {
    RunKeepsInv(states, steps, i);
  }

  /** Forwarder k was started when at least this many results had been posted. */
  ghost predicate StartedAfter(s: State, k: nat, posts: nat)
  {
    |s.posts| >= posts && (k in s.forwarders ==> s.forwarders[k].started >= posts)
  }

  lemma {:induction false} LaterAttemptsStartAfter(states: seq<State>, steps: seq<Step>, i: nat, j: nat, k: nat)
    requires IsRun(states, steps) && j <= i < |states| && states[j].attempts <= k
    ensures StartedAfter(states[i], k, |states[j].posts|)
  {
    if j < i {
      LaterAttemptsStartAfter(states, steps, i - 1, j, k);
      RunKeepsInv(states, steps, i - 1);
      assert Takes(states[i - 1], states[i], steps[i - 1]);
    } else {
      RunKeepsInv(states, steps, j);
    }
  }

  /** What an attempt consumes was posted after every state of the run in which the attempt had not begun. */
  lemma ConsumedResultIsNew(states: seq<State>, steps: seq<Step>, i: nat, j: nat, k: nat)
    requires IsRun(states, steps) && j <= i < |states|
    requires k in states[i].consumed && states[j].attempts <= k
    ensures |states[j].posts| <= states[i].consumed[k] < |states[i].posts|
  {
    LaterAttemptsStartAfter(states, steps, i, j, k);
    ResultsAreNeverConsumedByAnotherAttempt(states, steps, i, k);
  }

  /** Forwarder k offers post p, or its attempt has taken it. */
  ghost predicate Holds(s: State, k: nat, p: nat)
  {
    || (k in s.forwarders && s.forwarders[k].stage == Offering(p))
    || (k in s.consumed && s.consumed[k] == p)
  }

  ghost predicate NoResultTwice(s: State)
  {
    forall k, l, p :: Holds(s, k, p) && Holds(s, l, p) ==> k == l
  }

  lemma HeldIsPosted(s: State, k: nat, p: nat)
    requires Inv(s) && Holds(s, k, p)
    ensures p < |s.posts|
  {
    assert Answers(s, p, k);
  }

  lemma HeldBefore(s: State, t: State, step: Step, k: nat, p: nat)
    requires Inv(s) && Takes(s, t, step) && Holds(t, k, p)
    ensures if step.PostStep? && p == |s.posts| then step.k == k else Holds(s, k, p)
  {
    if step.DeliverStep? {
      DeliverKeepsInv(s, t, step.k);
    }
    if step.PostStep? && Holds(s, k, p) {
      HeldIsPosted(s, k, p);
    }
  }

  lemma StepKeepsNoResultTwice(s: State, t: State, step: Step)
    requires Inv(s) && NoResultTwice(s) && Takes(s, t, step)
    ensures NoResultTwice(t)
  {
    forall k, l, p | Holds(t, k, p) && Holds(t, l, p)
      ensures k == l
    {
      HeldBefore(s, t, step, k, p);
      HeldBefore(s, t, step, l, p);
    }
  }

  /** Over every run a posted result reaches at most one attempt. */
  lemma {:induction false} EveryResultGoesToOneAttempt(states: seq<State>, steps: seq<Step>, i: nat)
    requires IsRun(states, steps) && i < |states|
    ensures NoResultTwice(states[i])
  {
    if i > 0 {
      EveryResultGoesToOneAttempt(states, steps, i - 1);
      RunKeepsInv(states, steps, i - 1);
      StepKeepsNoResultTwice(states[i - 1], states[i], steps[i - 1]);
    }
  }

  /** Attempt k is behind the waiter: a later one began, or the waiter no longer listens to it. */
  predicate Over(s: State, k: nat)
  {
    k + 1 < s.attempts || (k + 1 == s.attempts && !s.waiter.Waiting?)
  }

  /** The forwarder of an attempt that is over and took no result. */
  ghost predicate Stranded(s: State, k: nat)
  {
    Over(s, k) && k in s.forwarders && k !in s.consumed
  }

  lemma StepKeepsStranded(s: State, t: State, step: Step, k: nat)
    requires Inv(s) && Takes(s, t, step) && Stranded(s, k)
    ensures Stranded(t, k)
  {
    if step.DeliverStep? {
      DeliverKeepsInv(s, t, step.k);
    }
  }

  lemma RunStepKeepsStranded(states: seq<State>, steps: seq<Step>, i: nat, k: nat)
    requires IsRun(states, steps) && i + 1 < |states| && Stranded(states[i], k)
    ensures Stranded(states[i + 1], k)
  {
    RunKeepsInv(states, steps, i);
    StepKeepsStranded(states[i], states[i + 1], steps[i], k);
  }

  lemma {:induction false} RunKeepsStranded(states: seq<State>, steps: seq<Step>, i: nat, j: nat, k: nat)
    requires IsRun(states, steps) && i <= j < |states| && Stranded(states[i], k)
    ensures Stranded(states[j], k)
    decreases j
  {
    if i < j {
      RunKeepsStranded(states, steps, i, j - 1, k);
      RunStepKeepsStranded(states, steps, j - 1, k);
    }
  }

  /** A forwarder whose attempt is over without having taken its result never finishes, in any continuation. */
  lemma AbandonedForwarderNeverFinishes(states: seq<State>, steps: seq<Step>, i: nat, j: nat, k: nat)
    requires IsRun(states, steps) && i <= j < |states| && Stranded(states[i], k)
    ensures k in states[j].forwarders && !states[j].forwarders[k].stage.Finished?
  {
    RunKeepsStranded(states, steps, i, j, k);
    RunKeepsInv(states, steps, j);
  }

  /**
   What has become of the forwarder of attempt k, which is over with this outcome: it finished if the attempt got
   its job's result, is stranded if the call failed or the context was done first, and was never started if the
   caller brought a channel.
   */
  ghost predicate HasFate(s: State, k: nat, outcome: Option<OperationError>)
  {
    Over(s, k)
    && match outcome
       case None => k in s.consumed
       case Some(JobFailed(result)) =>
         && k in s.consumed && s.consumed[k] < |s.posts| && s.posts[s.consumed[k]].result == result
         && (result == JobResult.Failed || result == JobResult.Timeout)
       case Some(CallFailed) => Stranded(s, k)
       case Some(ContextDone) => Stranded(s, k) && s.ctxDone
       case Some(ChannelGiven) => k !in s.forwarders && k !in s.consumed && s.channelGiven
  }

  /** The outcome of the current attempt, once it is over and as long as the waiter has not started another. */
  ghost predicate EndedWith(s: State, outcome: Option<OperationError>)
  {
    s.attempts > 0 && match s.waiter
                      case BackingOff(cause) => outcome == Some(cause)
                      case Returned(o) => outcome == o
                      case _ => false
  }

  ghost predicate FateInv(s: State)
  {
    forall outcome :: EndedWith(s, outcome) ==> HasFate(s, s.attempts - 1, outcome)
  }

  lemma StepKeepsFate(s: State, t: State, step: Step, k: nat, outcome: Option<OperationError>)
    requires Inv(s) && Takes(s, t, step) && HasFate(s, k, outcome)
    ensures HasFate(t, k, outcome)
  {
    if step.DeliverStep? {
      DeliverKeepsInv(s, t, step.k);
    }
  }

  lemma NotYetStarted(s: State)
    requires Inv(s)
    ensures s.attempts !in s.forwarders && s.attempts !in s.consumed
  {
  }

  lemma DeliverGivesFate(s: State, t: State, k: nat, outcome: Option<OperationError>)
    requires Inv(s) && Deliver(s, t, k) && EndedWith(t, outcome)
    ensures HasFate(t, t.attempts - 1, outcome)
  {
    DeliverIsToCurrent(s, t, k);
  }

  lemma OwnEndGivesFate(s: State, t: State, outcome: Option<OperationError>)
    requires Inv(s) && (Refuse(s, t) || CallFails(s, t) || Abandon(s, t)) && EndedWith(t, outcome)
    ensures HasFate(t, t.attempts - 1, outcome)
  {
    NotYetStarted(s);
  }

  lemma StepGivesFate(s: State, t: State, step: Step, outcome: Option<OperationError>)
    requires Inv(s) && FateInv(s) && Takes(s, t, step) && EndedWith(t, outcome)
    ensures HasFate(t, t.attempts - 1, outcome)
  {
    if EndedWith(s, outcome) {
      StepKeepsFate(s, t, step, s.attempts - 1, outcome);
    } else if step.DeliverStep? {
      DeliverGivesFate(s, t, step.k, outcome);
    } else {
      OwnEndGivesFate(s, t, outcome);
    }
  }

  lemma {:induction false} RunKeepsFateInv(states: seq<State>, steps: seq<Step>, i: nat)
    requires IsRun(states, steps) && i < |states|
    ensures FateInv(states[i])
  {
    if i > 0 {
      RunKeepsInv(states, steps, i - 1);
      RunKeepsFateInv(states, steps, i - 1);
      forall outcome | EndedWith(states[i], outcome)
        ensures HasFate(states[i], states[i].attempts - 1, outcome)
      {
        StepGivesFate(states[i - 1], states[i], steps[i - 1], outcome);
      }
    }
  }

  lemma {:induction false} RunKeepsFate(states: seq<State>, steps: seq<Step>, i: nat, j: nat, k: nat, outcome: Option<OperationError>)
    requires IsRun(states, steps) && i <= j < |states| && HasFate(states[i], k, outcome)
    ensures HasFate(states[j], k, outcome)
    decreases j
  {
    if i < j {
      RunKeepsFate(states, steps, i, j - 1, k, outcome);
      RunKeepsInv(states, steps, j - 1);
      StepKeepsFate(states[j - 1], states[j], steps[j - 1], k, outcome);
    }
  }

  /**
   The outcome of an attempt decides what becomes of its forwarder, then and in every continuation: one was started
   unless the caller brought a channel, and it has finished exactly if the attempt succeeded or its job failed;
   after a failed call or a wait that the context ended it never finishes.
   */
  lemma OutcomeDecidesForwarder(states: seq<State>, steps: seq<Step>, i: nat, j: nat, outcome: Option<OperationError>)
    requires IsRun(states, steps) && i <= j < |states| && EndedWith(states[i], outcome)
    ensures var k := states[i].attempts - 1;
            && (outcome == Some(ContextDone) ==> states[j].ctxDone)
            && (outcome == Some(ChannelGiven) ==> states[j].channelGiven)
            && (k in states[j].forwarders <==> outcome != Some(ChannelGiven))
            && (k in states[j].forwarders ==>
                  (states[j].forwarders[k].stage.Finished? <==> outcome.None? || outcome.value.JobFailed?))
            && (outcome.Some? && outcome.value.JobFailed? ==>
                  && k in states[j].consumed && Answers(states[j], states[j].consumed[k], k)
                  && states[j].posts[states[j].consumed[k]].result == outcome.value.result
                  && (outcome.value.result == JobResult.Failed || outcome.value.result == JobResult.Timeout))
  {
    RunKeepsFateInv(states, steps, i);
    RunKeepsFate(states, steps, i, j, states[i].attempts - 1, outcome);
    RunKeepsInv(states, steps, j);
  }

  // ----- A waiting attempt can always be ended -----

  /** The waiting attempt's job can still end, or its result is offered. */
  ghost predicate CanEnd(s: State)
  {
    s.waiter.Waiting? ==>
      && s.attempts > 0 && s.attempts - 1 in s.forwarders
      && var f := s.forwarders[s.attempts - 1];
      || f.stage.Offering?
      || (f.stage.AwaitingJob? && f.job.Some? && f.job.value in s.listeners && s.listeners[f.job.value] == f.jobChannel)
  }

  lemma StepKeepsCanEnd(s: State, t: State, step: Step)
    requires Inv(s) && CanEnd(s) && Takes(s, t, step)
    ensures CanEnd(t)
  {
    if step.DeliverStep? {
      DeliverIsToCurrent(s, t, step.k);
    }
  }

  lemma {:induction false} RunKeepsCanEnd(states: seq<State>, steps: seq<Step>, i: nat)
    requires IsRun(states, steps) && i < |states|
    ensures CanEnd(states[i])
  {
    if i > 0 {
      RunKeepsInv(states, steps, i - 1);
      RunKeepsCanEnd(states, steps, i - 1);
      StepKeepsCanEnd(states[i - 1], states[i], steps[i - 1]);
    }
  }

  /** The state after the waiting attempt k was handed this result, when it was still to be posted. */
  ghost predicate EndsAttempt(s: State, mid: State, end: State, job: nat, result: JobResult)
  {
    s.attempts > 0 && PostResult(s, mid, job, result, s.attempts - 1) && Deliver(mid, end, s.attempts - 1)
  }

  /**
   Whenever an attempt waits for its job, systemd can end that job with any result, and taking the result ends the
   attempt: with an error for failed and timeout, which are retried, and with nil for every other result.
   */
  lemma AnyResultEndsAttempt(states: seq<State>, steps: seq<Step>, result: JobResult) returns (mid: State, end: State)
    requires IsRun(states, steps) && states[|steps|].waiter.Waiting?
    requires states[|steps|].attempts - 1 in states[|steps|].forwarders
    requires states[|steps|].forwarders[states[|steps|].attempts - 1].stage.AwaitingJob?
    ensures exists job :: EndsAttempt(states[|steps|], mid, end, job, result)
    ensures end.waiter == if result == JobResult.Failed || result == JobResult.Timeout
                          then BackingOff(JobFailed(result)) else Returned(None)
  {
    var s := states[|steps|];
    RunKeepsInv(states, steps, |steps|);
    RunKeepsCanEnd(states, steps, |steps|);
    var k := s.attempts - 1;
    var job := s.forwarders[k].job.value;
    mid := s.(posts := s.posts + [Post(job, result)],
              listeners := s.listeners - {job},
              forwarders := s.forwarders[k := s.forwarders[k].(stage := Offering(|s.posts|))]);
    end := mid.(forwarders := mid.forwarders[k := mid.forwarders[k].(stage := Finished)],
                consumed := mid.consumed[k := |s.posts|],
                waiter := if Unsuccessful(result) then BackingOff(JobFailed(result)) else Returned(None));
    assert EndsAttempt(s, mid, end, job, result);
  }

  /** A result that is offered already is as good: taking it ends the attempt in the same way. */
  lemma OfferedResultEndsAttempt(states: seq<State>, steps: seq<Step>) returns (end: State)
    requires IsRun(states, steps) && states[|steps|].waiter.Waiting?
    requires states[|steps|].attempts - 1 in states[|steps|].forwarders
    requires states[|steps|].forwarders[states[|steps|].attempts - 1].stage.Offering?
    ensures var s := states[|steps|];
            var post := s.forwarders[s.attempts - 1].stage.post;
            && Deliver(s, end, s.attempts - 1) && post < |s.posts|
            && var result := s.posts[post].result;
            end.waiter == if result == JobResult.Failed || result == JobResult.Timeout
                          then BackingOff(JobFailed(result)) else Returned(None)
  {
    var s := states[|steps|];
    RunKeepsInv(states, steps, |steps|);
    var k := s.attempts - 1;
    assert Answers(s, s.forwarders[k].stage.post, k);
    var result := s.posts[s.forwarders[k].stage.post].result;
    end := s.(forwarders := s.forwarders[k := s.forwarders[k].(stage := Finished)],
              consumed := s.consumed[k := s.forwarders[k].stage.post],
              waiter := if Unsuccessful(result) then BackingOff(JobFailed(result)) else Returned(None));
  }

  /** A forwarder finishes exactly when its own attempt consumes its result. */
  lemma FinishedIffConsumed(states: seq<State>, steps: seq<Step>, i: nat, k: nat)
    requires IsRun(states, steps) && i < |states| && k in states[i].forwarders
    ensures states[i].forwarders[k].stage.Finished? <==> k in states[i].consumed
  {
    RunKeepsInv(states, steps, i);
  }

  /** A run that strands a forwarder: the operation is called, and the context is done before its job ends. */
  lemma SomeForwarderIsAbandoned(s: State, job: nat) returns (states: seq<State>, steps: seq<Step>)
    requires Init(s) && !s.channelGiven
    ensures IsRun(states, steps) && states[0] == s && Stranded(states[|steps|], 0)
    ensures EndedWith(states[|steps|], Some(ContextDone))
  {
    var called := s.(attempts := 1, nextChannel := 2, forwarders := map[0 := NewForwarder(s, Some(job))],
                     listeners := map[job := 1], waiter := Waiting(0));
    var cancelled := called.(ctxDone := true);
    states := [s, called, cancelled, cancelled.(waiter := BackingOff(ContextDone))];
    steps := [CallStep(job), CancelStep, AbandonStep];
  }

  /** Another one: the call fails, with the context still live. */
  lemma FailedCallStrandsForwarder(s: State) returns (states: seq<State>, steps: seq<Step>)
    requires Init(s) && !s.channelGiven
    ensures IsRun(states, steps) && states[0] == s && Stranded(states[|steps|], 0) && !states[|steps|].ctxDone
    ensures EndedWith(states[|steps|], Some(CallFailed))
  {
    states := [s, s.(attempts := 1, nextChannel := 2, forwarders := map[0 := NewForwarder(s, None)],
                     waiter := BackingOff(CallFailed))];
    steps := [CallFailsStep];
  }

  // ----- The waiter's own code, run against systemd and the context -----

  datatype WaitOutcome = Pending | Ended(err: Option<OperationError>)

  class Protocol {
    var s: State
    ghost var states: seq<State>
    ghost var steps: seq<Step>

    ghost predicate Valid()
      reads this
    {
      IsRun(states, steps) && states[|steps|] == s
    }

    constructor (channelGiven: bool)
      ensures Valid() && Init(s) && s.channelGiven == channelGiven
    {
      s := State(channelGiven, false, 0, 0, map[], map[], [], map[], Calling);
      states, steps := [s], [];
    }

    method Become(t: State, ghost step: Step)
      requires Valid() && Takes(s, t, step)
      modifies this
      ensures Valid() && s == t
      ensures old(states) <= states
    {
      s := t;
      states := states + [t];
      steps := steps + [step];
    }

    /** Posts any result for any job that a waiting forwarder listens for, if there is one. */
    method PostSome()
      requires Valid()
      modifies this
      ensures Valid() && old(states) <= states
      ensures s.waiter == old(s.waiter) && s.attempts == old(s.attempts) && s.channelGiven == old(s.channelGiven)
    {
      var result: JobResult := *;
      if job, k :| job in s.listeners && k in s.forwarders && Listens(s, job, k) {
        Become(s.(posts := s.posts + [Post(job, result)],
                  listeners := s.listeners - {job},
                  forwarders := s.forwarders[k := s.forwarders[k].(stage := Offering(|s.posts|))]),
               PostStep(job, result, k));
      }
    }

    /** Any number of results posted by systemd, and possibly a cancellation, while the waiter is blocked. */
    method Interfere()
      requires Valid()
      modifies this
      ensures Valid() && old(states) <= states
      ensures s.waiter == old(s.waiter) && s.attempts == old(s.attempts) && s.channelGiven == old(s.channelGiven)
    {
      var n: int := *;
      for i := 0 to if n < 0 then 0 else n
        invariant Valid() && old(states) <= states
        invariant s.waiter == old(s.waiter) && s.attempts == old(s.attempts) && s.channelGiven == old(s.channelGiven)
      {
        var cancel: bool := *;
        if cancel {
          Become(s.(ctxDone := true), CancelStep);
        } else {
          PostSome();
        }
      }
    }

    /** Calls the operation for the current attempt. */
    method CallOperation() returns (ok: bool)
      requires Valid() && s.waiter.Calling? && !s.channelGiven
      modifies this
      ensures Valid() && old(states) <= states
      ensures s.attempts == old(s.attempts) + 1 && !s.channelGiven
      ensures if ok then s.waiter.Waiting? else s.waiter == BackingOff(CallFailed)
    {
      ok := *;
      if ok {
        var job: int := *;
        if job < 0 { job := 0; }
        Become(s.(attempts := s.attempts + 1,
                  nextChannel := s.nextChannel + 2,
                  forwarders := s.forwarders[s.attempts := NewForwarder(s, Some(job))],
                  listeners := s.listeners[job := s.nextChannel + 1],
                  waiter := Waiting(s.nextChannel)),
               CallStep(job));
      } else {
        Become(s.(attempts := s.attempts + 1,
                  nextChannel := s.nextChannel + 2,
                  forwarders := s.forwarders[s.attempts := NewForwarder(s, None)],
                  waiter := BackingOff(CallFailed)),
               CallFailsStep);
      }
    }

    /** Takes the result that the current attempt's forwarder offers. */
    method Receive() returns (err: Option<OperationError>)
      requires Valid() && s.waiter.Waiting?
      requires s.attempts > 0 && s.attempts - 1 in s.forwarders && s.forwarders[s.attempts - 1].stage.Offering?
      modifies this
      ensures Valid() && old(states) <= states
      ensures s.waiter == if err.None? then Returned(None) else BackingOff(err.value)
      ensures old(s.forwarders[s.attempts - 1].stage.post) < |old(s.posts)|
      ensures var result := old(s.posts)[old(s.forwarders[s.attempts - 1].stage.post)].result;
              err == if result == JobResult.Failed || result == JobResult.Timeout then Some(JobFailed(result)) else None
      ensures s.attempts == old(s.attempts) && s.channelGiven == old(s.channelGiven)
    {
      RunKeepsInv(states, steps, |steps|);
      var k := s.attempts - 1;
      assert Answers(s, s.forwarders[k].stage.post, k);
      var post := s.forwarders[k].stage.post;
      var result := s.posts[post].result;
      err := if Unsuccessful(result) then Some(JobFailed(result)) else None;
      Become(s.(forwarders := s.forwarders[k := s.forwarders[k].(stage := Finished)],
                consumed := s.consumed[k := post],
                waiter := if Unsuccessful(result) then BackingOff(JobFailed(result)) else Returned(None)),
             DeliverStep(k));
    }

    /** The forwarder of the current attempt has a result to offer. */
    ghost predicate ResultOffered()
      reads this
    {
      s.attempts > 0 && s.attempts - 1 in s.forwarders && s.forwarders[s.attempts - 1].stage.Offering?
    }

    /**
     One attempt. It is pending only while neither a result is offered nor the context done, as far as it has
     looked, and it does not start the operation when the caller brings a result channel.
     */
    method WaitForOperation(looks: nat) returns (r: WaitOutcome)
      requires Valid() && s.waiter.Calling?
      modifies this
      ensures Valid() && old(states) <= states
      ensures r.Ended? ==> s.waiter == if r.err.None? then Returned(None) else BackingOff(r.err.value)
      ensures r.Pending? ==> s.waiter.Waiting? && (looks > 0 ==> !s.ctxDone && !ResultOffered())
      ensures s.attempts == old(s.attempts) + 1 && s.channelGiven == old(s.channelGiven)
      ensures s.channelGiven <==> r == Ended(Some(ChannelGiven))
      ensures r.Ended? && r.err.Some? && r.err.value.JobFailed? ==>
                r.err.value.result == JobResult.Failed || r.err.value.result == JobResult.Timeout
      ensures r == Ended(Some(ContextDone)) ==> s.ctxDone
      ensures s.channelGiven ==> s.forwarders == old(s.forwarders) && s.listeners == old(s.listeners)
    {
      if s.channelGiven {
        Become(s.(attempts := s.attempts + 1, waiter := BackingOff(ChannelGiven)), RefuseStep);
        return Ended(Some(ChannelGiven));
      }
      var ok := CallOperation();
      if !ok {
        return Ended(Some(CallFailed));
      }
      for i := 0 to looks
        invariant Valid() && old(states) <= states && s.waiter.Waiting?
        invariant s.attempts == old(s.attempts) + 1 && !s.channelGiven
        invariant i > 0 ==> !s.ctxDone && !ResultOffered()
      {
        Interfere();
        RunKeepsInv(states, steps, |steps|);
        var offered := s.forwarders[s.attempts - 1].stage.Offering?;
        var preferContext: bool := *;
        if s.ctxDone && (preferContext || !offered) {
          Become(s.(waiter := BackingOff(ContextDone)), AbandonStep);
          return Ended(Some(ContextDone));
        }
        if offered {
          var err := Receive();
          return Ended(err);
        }
      }
      return Pending;
    }

    /**
     Attempt after attempt until one ends well or the context is done. Nil means that the last attempt took a
     result posted for its own job since it began, neither failed nor timeout; an error means the context is done.
     */
    method RetryOperation(rounds: nat, looks: nat) returns (r: WaitOutcome)
      requires Valid() && s.waiter.Calling?
      modifies this
      ensures Valid() && old(states) <= states
      ensures r == Ended(None) ==>
                && s.attempts - 1 in s.consumed
                && Answers(s, s.consumed[s.attempts - 1], s.attempts - 1)
                && s.posts[s.consumed[s.attempts - 1]].result != JobResult.Failed
                && s.posts[s.consumed[s.attempts - 1]].result != JobResult.Timeout
      ensures r.Ended? ==> s.waiter == Returned(r.err)
      ensures r.Ended? && r.err.Some? ==> s.ctxDone
      ensures r.Pending? ==> s.waiter.Waiting? || s.attempts == old(s.attempts) + rounds
      ensures s.channelGiven ==> r != Ended(None)
    {
      for round := 0 to rounds
        invariant Valid() && old(states) <= states && s.waiter.Calling?
        invariant s.attempts == old(s.attempts) + round
      {
        var w := WaitForOperation(looks);
        if w.Pending? {
          return Pending;
        }
        if w.err.None? {
          ReturnMeansOwnResultOrCancelled(states, steps, |steps|);
          return Ended(None);
        }
        Interfere();
        var chooseContext: bool := *;
        if s.ctxDone && chooseContext {
          Become(s.(waiter := Returned(Some(w.err.value))), GiveUpStep);
          return Ended(Some(w.err.value));
        }
        Become(s.(waiter := Calling), RetryStep);
      }
      return Pending;
    }
  }

  // ----- Polling for a daemon status -----

  datatype Status = Running | Stopped | Unknown

  datatype StatusRead = Read(status: Status) | ReadFailed

  datatype StatusOutcome = Reached | StillOther | Polling

  /**
   Polls until the status is the desired one, or until the wait after a poll ends with the context done; still
   polling when neither happened within the given number of polls.
   */
  method WaitForStatus(poll: nat -> StatusRead, ctxDone: nat -> bool, desired: Status, rounds: nat)
    returns (r: StatusOutcome, polls: nat)
    ensures polls <= rounds
    ensures forall i: nat :: i < polls - 1 ==> poll(i) != Read(desired) && !ctxDone(i)
    ensures r.Reached? <==> polls > 0 && poll(polls - 1) == Read(desired)
    ensures r.StillOther? <==> polls > 0 && poll(polls - 1) != Read(desired) && ctxDone(polls - 1)
    ensures r.Polling? ==> polls == rounds
  {
    polls := 0;
    while polls < rounds
      invariant polls <= rounds
      invariant forall i: nat :: i < polls ==> poll(i) != Read(desired) && !ctxDone(i)
    {
      var answer := poll(polls);
      polls := polls + 1;
      if answer == Read(desired) {
        return Reached, polls;
      }
      if ctxDone(polls - 1) {
        return StillOther, polls;
      }
    }
    return Polling, polls;
  }
}
