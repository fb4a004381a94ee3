/**
 `poll` against `hasten`, access by access. The renewal task and any number of hastening
 threads share the atomic next tick and the waker; each step below is one of their accesses.
 */
module Interleaving {
  import opened Prelude
  import opened Handle
  import opened Scheduler

  /** Where the task is in `poll`. */
  datatype Pc =
    | Parked                      // not being polled
    | Polled                      // being polled, nothing done yet
    | Registered                  // the waker is registered
    | Loaded(tick: Option<U64>)   // the next tick is loaded and decoded
    | Armed                       // the sleep is armed, to be polled
    | Ticking                     // the sleep has elapsed
    | Storing(answer: Option<U64>)
    | Resetting(answer: Option<U64>)
    | Finished                    // the service is gone, the future has completed

  datatype State = State(
    now: nat,
    nextTick: U64,
    sleep: Option<U64>,
    registered: bool,
    woken: bool,
    dropped: bool,
    pc: Pc,
    waking: set<nat>,      // threads of `hasten` between the update and the wake
    hastened: set<U64>)    // the times hastened since the last store

  datatype Step =
    | Pass(to: nat)
    | TimerFires
    | BeginPoll
    | UpgradeAndRegister
    | Load
    | Arm
    | PollSleep
    | Tick(answer: Option<U64>)
    | Store
    | Reset
    | FetchMin(thread: nat, time: U64)
    | WakeTask(thread: nat)
    | DropService

  predicate Enabled(s: State, step: Step) {
    match step
    case Pass(to) => s.now <= to
    case TimerFires => s.sleep.Some? && s.sleep.value <= s.now
    case BeginPoll => s.pc == Parked
    case UpgradeAndRegister => s.pc == Polled
    case Load => s.pc == Registered
    case Arm => s.pc.Loaded?
    case PollSleep => s.pc == Armed && s.sleep.Some?
    case Tick(answer) => s.pc == Ticking && answer != Some(U64_MAX)
    case Store => s.pc.Storing?
    case Reset => s.pc.Resetting?
    case FetchMin(thread, _) => !s.dropped && thread !in s.waking
    case WakeTask(thread) => thread in s.waking
    case DropService => !s.dropped && s.waking == {} && (s.pc == Parked || s.pc == Polled)
  }

  function Awakened(s: State): State {
    if s.registered then s.(registered := false, woken := true) else s
  }

  function Next(s: State, step: Step): State {
    match step
    case Pass(to) => s.(now := to)
    case TimerFires => s.(woken := true)
    case BeginPoll => s.(pc := Polled, woken := false)
    case UpgradeAndRegister => if s.dropped then s.(pc := Finished) else s.(registered := true, pc := Registered)
    case Load => s.(pc := Loaded(Decode(s.nextTick)))
    case Arm =>
      if !s.pc.Loaded? then s else
        var armed := Rearmed(s.sleep, Encode(s.pc.tick));
        s.(sleep := armed, pc := if armed.Some? then Armed else Parked)
    case PollSleep => s.(pc := if s.sleep.Some? && s.sleep.value <= s.now then Ticking else Parked)
    case Tick(answer) => s.(pc := Storing(answer))
    case Store => if !s.pc.Storing? then s else s.(nextTick := Encode(s.pc.answer), hastened := {}, pc := Resetting(s.pc.answer))
    case Reset => if !s.pc.Resetting? then s else s.(sleep := s.pc.answer, pc := Parked)
    case FetchMin(thread, time) =>
      s.(nextTick := Min(s.nextTick, time), hastened := s.hastened + {time},
         waking := if time < s.nextTick then s.waking + {thread} else s.waking)
    case WakeTask(thread) => Awakened(s.(waking := s.waking - {thread}))
    case DropService => Awakened(s.(dropped := true))
  }

  predicate Legal(s: State, steps: seq<Step>)
    decreases |steps|
  {
    steps == [] || (Enabled(s, steps[0]) && Legal(Next(s, steps[0]), steps[1..]))
  }

  function After(s: State, steps: seq<Step>): State
    decreases |steps|
  {
    if steps == [] then s else After(Next(s, steps[0]), steps[1..])
  }

  /** A new scheduler: its sleep follows the handle, and its first poll is due. */
  predicate Initial(s: State) {
    && s.sleep == Decode(s.nextTick) && s.woken && !s.registered && !s.dropped
    && s.pc == Parked && s.waking == {} && s.hastened == {}
  }

  /** The next tick is `tick`, or the task is going to be polled again. */
  predicate Noticed(s: State, tick: Option<U64>) {
    Decode(s.nextTick) == tick || s.woken || s.waking != {}
  }

  predicate Invariant(s: State) {
    && (s.pc != Polled && s.pc != Finished ==> s.registered || s.woken)
    && (s.dropped ==> s.waking == {} && (s.pc == Polled || s.pc == Finished || (s.pc == Parked && s.woken)))
    && (!s.pc.Resetting? ==> Ahead(s.sleep, s.nextTick))
    && (forall time :: time in s.hastened ==> s.nextTick <= time)
    && match s.pc {
         case Parked => Noticed(s, s.sleep)
         case Armed => s.sleep.Some? && Noticed(s, s.sleep)
         case Loaded(tick) => Noticed(s, tick) && s.nextTick <= Encode(tick) && Ahead(s.sleep, Encode(tick)) && tick != Some(U64_MAX)
         case Storing(answer) => answer != Some(U64_MAX)
         case Resetting(answer) => Noticed(s, answer) && s.nextTick <= Encode(answer) && answer != Some(U64_MAX)
         case _ => true
       }
  }

  /** The accesses of `poll`. */
  predicate OfTask(step: Step) {
    step.BeginPoll? || step.UpgradeAndRegister? || step.Load? || step.Arm? || step.PollSleep?
    || step.Tick? || step.Store? || step.Reset?
  }

  lemma {:induction false} TaskStepInvariant(s: State, step: Step)
    requires Invariant(s) && Enabled(s, step) && OfTask(step)
    ensures Invariant(Next(s, step))
  {
  }

  lemma {:induction false} OtherStepInvariant(s: State, step: Step)
    requires Invariant(s) && Enabled(s, step) && !OfTask(step)
    ensures Invariant(Next(s, step))
  {
  }

  lemma {:induction false} StepInvariant(s: State, step: Step)
    requires Invariant(s) && Enabled(s, step)
    ensures Invariant(Next(s, step))
  {
    if OfTask(step) { TaskStepInvariant(s, step); } else { OtherStepInvariant(s, step); }
  }

  lemma {:induction false} InvariantInEveryRun(s: State, steps: seq<Step>)
    requires Invariant(s) && Legal(s, steps)
    ensures Invariant(After(s, steps))
    decreases |steps|
  {
    if steps != [] {
      StepInvariant(s, steps[0]);
      InvariantInEveryRun(Next(s, steps[0]), steps[1..]);
    }
  }

  /**
   No lost wake-up, in any interleaving: a task that is parked with no wake pending and no thread
   about to wake it sleeps exactly until the next tick, or for ever when there is none. The next
   tick is not after any time hastened since the last store, and no dropped service is waited for.
   */
  lemma {:induction false} NoLostWakeUp(s: State, steps: seq<Step>)
    requires Initial(s) && Legal(s, steps)
    ensures var s' := After(s, steps);
      && (s'.pc == Parked && !s'.woken && s'.waking == {} ==> s'.sleep == Decode(s'.nextTick) && !s'.dropped)
      && (forall time :: time in s'.hastened ==> s'.nextTick <= time)
  {
    InvariantInEveryRun(s, steps);
  }

  /** The accesses of one poll, if no other thread gets between them. */
  function PollSteps(s: State, answer: Option<U64>): seq<Step> {
    var armed := Rearmed(s.sleep, s.nextTick);
    [BeginPoll, UpgradeAndRegister, Load, Arm] +
    if armed.None? then [] else if s.now < armed.value then [PollSleep] else [PollSleep, Tick(answer), Store, Reset]
  }

  lemma {:induction false} UninterruptedPoll(s: State, answer: Option<U64>)
    requires s.pc == Parked && !s.dropped && answer != Some(U64_MAX)
    ensures var armed := Rearmed(s.sleep, s.nextTick);
      && Legal(s, PollSteps(s, answer))
      && After(s, PollSteps(s, answer)) ==
           if armed.Some? && armed.value <= s.now
           then s.(registered := true, woken := false, sleep := answer, nextTick := Encode(answer), hastened := {})
           else s.(registered := true, woken := false, sleep := armed)
  {
    var armed := Rearmed(s.sleep, s.nextTick);
    var rest := if armed.None? then [] else if s.now < armed.value then [PollSleep]
                else [PollSleep, Tick(answer), Store, Reset];
    var s4 := s.(registered := true, woken := false, sleep := armed, pc := if armed.Some? then Armed else Parked);
    assert Encode(Decode(s.nextTick)) == s.nextTick;
    RunAll(s4, rest);
    Unfold(Next(Next(Next(s, BeginPoll), UpgradeAndRegister), Load), Arm, rest);
    Unfold(Next(Next(s, BeginPoll), UpgradeAndRegister), Load, [Arm] + rest);
    Unfold(Next(s, BeginPoll), UpgradeAndRegister, [Load] + ([Arm] + rest));
    Unfold(s, BeginPoll, [UpgradeAndRegister] + ([Load] + ([Arm] + rest)));
    assert [BeginPoll] + ([UpgradeAndRegister] + ([Load] + ([Arm] + rest))) == PollSteps(s, answer);
  }

  /** The accesses of one `hasten`, if nothing gets between them: the wake only if the tick got earlier. */
  function HastenSteps(s: State, thread: nat, time: U64): seq<Step> {
    [FetchMin(thread, time)] + if time < s.nextTick then [WakeTask(thread)] + [] else []
  }

  lemma {:induction false} UninterruptedHasten(s: State, thread: nat, time: U64)
    requires !s.dropped && thread !in s.waking
    ensures Legal(s, HastenSteps(s, thread, time))
    ensures var s' := After(s, HastenSteps(s, thread, time));
      s' == (if time < s.nextTick then Awakened(s) else s).(nextTick := Min(s.nextTick, time), hastened := s.hastened + {time})
  {
    var s1 := Next(s, FetchMin(thread, time));
    var rest := if time < s.nextTick then [WakeTask(thread)] + [] else [];
    Unfold(s1, WakeTask(thread), []);
    Unfold(s, FetchMin(thread, time), rest);
    assert s.waking + {thread} - {thread} == s.waking;
  }

  lemma {:induction false} Unfold(s: State, step: Step, steps: seq<Step>)
    ensures After(s, [step] + steps) == After(Next(s, step), steps)
    ensures Enabled(s, step) && Legal(Next(s, step), steps) ==> Legal(s, [step] + steps)
  {
    assert ([step] + steps)[1..] == steps;
  }

  /** A scheduled tick does come: from every quiet state, once its time is there the timer has the task polled, and it ticks. */
  lemma {:induction false} ScheduledTickHappens(s: State, answer: Option<U64>)
    requires Invariant(s) && s.pc == Parked && !s.woken && s.waking == {} && s.nextTick != U64_MAX && answer != Some(U64_MAX)
    ensures var due := s.(now := Max(s.now, s.nextTick), woken := true);
      var steps := [Pass(due.now)] + ([TimerFires] + PollSteps(due, answer));
      && Legal(s, steps) && Tick(answer) in steps
      && After(s, steps).sleep == answer && After(s, steps).nextTick == Encode(answer)
  {
    var due := s.(now := Max(s.now, s.nextTick), woken := true);
    var passed := Next(s, Pass(due.now));
    UninterruptedPoll(due, answer);
    Unfold(passed, TimerFires, PollSteps(due, answer));
    Unfold(s, Pass(due.now), [TimerFires] + PollSteps(due, answer));
    assert PollSteps(due, answer)[5] == Tick(answer);
  }

  /** Once the service is dropped the parked task is woken, and its next poll is the last. */
  lemma {:induction false} DroppedTaskFinishes(s: State)
    requires Invariant(s) && s.pc == Parked && !s.dropped && s.waking == {}
    ensures var steps := [DropService] + ([BeginPoll] + ([UpgradeAndRegister] + []));
      Legal(s, steps) && Next(s, DropService).woken && After(s, steps).pc == Finished
  {
    var s1 := Next(s, DropService);
    var s2 := Next(s1, BeginPoll);
    Unfold(s2, UpgradeAndRegister, []);
    Unfold(s1, BeginPoll, [UpgradeAndRegister] + []);
    Unfold(s, DropService, [BeginPoll] + ([UpgradeAndRegister] + []));
  }

  lemma {:induction false} RunAll(s: State, rest: seq<Step>)
    requires rest == [] || rest == [PollSleep]
      || (|rest| == 4 && rest[0] == PollSleep && rest[1].Tick? && rest[1].answer != Some(U64_MAX)
          && rest[2] == Store && rest[3] == Reset)
    requires rest == [] || (s.pc == Armed && s.sleep.Some?)
    requires |rest| == 1 ==> s.now < s.sleep.value
    requires |rest| == 4 ==> s.sleep.value <= s.now
    ensures Legal(s, rest)
    ensures After(s, rest) ==
      if rest == [] then s else if |rest| == 1 then s.(pc := Parked)
      else s.(nextTick := Encode(rest[1].answer), hastened := {}, sleep := rest[1].answer, pc := Parked)
  {
    if |rest| == 1 {
      Unfold(s, PollSleep, []);
      assert rest == [PollSleep] + [];
    } else if |rest| == 4 {
      var tick := rest[1];
      var s1 := Next(s, PollSleep);
      var s2 := Next(s1, tick);
      var s3 := Next(s2, Store);
      Unfold(s3, Reset, []);
      Unfold(s2, Store, [Reset] + []);
      Unfold(s1, tick, [Store] + ([Reset] + []));
      Unfold(s, PollSleep, [tick] + ([Store] + ([Reset] + [])));
      assert rest == [PollSleep] + ([tick] + ([Store] + ([Reset] + [])));
    }
  }
}
