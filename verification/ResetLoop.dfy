/**
 * The head-reset protocol of the transaction pool (mempool/txpool/txpool.go, loop and Sync) as a
 * transition system: the event loop, the reset goroutines it spawns, the Sync callers and the closer.
 */
module ResetLoop {
  import opened Wrappers

  /** Headers are compared by identity. */
  type Header = nat

  datatype Config = Config(init: Header, pools: nat)

  /** What an observer could record; a reset is known by the log position of its start. */
  datatype Event =
    | HeadArrived(head: Header)
    | SyncAccepted(id: nat)
    | ResetStarted(from: Header, to: Header)
    | SubpoolReset(start: nat, pool: nat)
    | ResetFinished(start: nat)
    | Answered(id: nat, terminated: bool)
    | QuitAccepted
    | Refused(id: nat)

  /** A reset goroutine; doneAt are the log positions at which its subpools were reset. */
  datatype Goroutine = Goroutine(start: nat, from: Header, to: Header, doneAt: seq<nat>)

  datatype Waiter = Waiter(id: nat, acceptedAt: nat)

  datatype Pc = LoopTop | AtSelect | Exiting | Terminated

  datatype State = State(
    pc: Pc,
    oldHead: Header,
    newHead: Header,
    busy: bool,               // the one-slot resetBusy channel holds its token
    running: seq<Goroutine>,
    forced: bool,             // resetForced
    waiter: Option<Waiter>,   // resetWaiter
    log: seq<Event>)

  ghost predicate Init(c: Config, s: State) {
    s == State(LoopTop, c.init, c.init, false, [], false, None, [])
  }

  datatype Step =
    | Start                   // the loop finds work and the token free
    | Skip                    // the loop finds nothing to do, or the token taken
    | ResetSubpool(i: nat)    // goroutine i resets its next subpool
    | Done(i: nat)            // the loop receives goroutine i's completion
    | NewHead(head: Header)
    | Sync(id: nat)
    | Quit
    | Terminate               // the deferred calls of the loop
    | Abandon(i: nat)         // goroutine i sees the pool terminated
    | LateSync(id: nat)       // Sync on a terminated pool

  function Without<T>(s: seq<T>, i: nat): seq<T>
    requires i < |s|
  {
    s[..i] + s[i + 1..]
  }

  predicate ResetNeeded(s: State) {
    s.newHead != s.oldHead || s.forced
  }

  ghost predicate Next(c: Config, s: State, step: Step, t: State) {
    match step
    case Start =>
      && s.pc == LoopTop && ResetNeeded(s) && !s.busy
      && t == s.(pc := AtSelect, busy := true, forced := false,
                 running := s.running + [Goroutine(|s.log|, s.oldHead, s.newHead, [])],
                 log := s.log + [ResetStarted(s.oldHead, s.newHead)])
    case Skip =>
      && s.pc == LoopTop && (!ResetNeeded(s) || s.busy)
      && t == s.(pc := AtSelect)
    case ResetSubpool(i) =>
      && i < |s.running| && |s.running[i].doneAt| < c.pools
      && var g := s.running[i];
         t == s.(running := s.running[i := g.(doneAt := g.doneAt + [|s.log|])],
                 log := s.log + [SubpoolReset(g.start, |g.doneAt|)])
    case Done(i) =>
      && s.pc == AtSelect && i < |s.running| && |s.running[i].doneAt| == c.pools
      && var g := s.running[i];
         var answer := s.waiter.Some? && !s.forced;
         t == s.(pc := LoopTop, oldHead := g.to, busy := false,
                 running := Without(s.running, i),
                 waiter := if answer then None else s.waiter,
                 log := s.log + [ResetFinished(g.start)]
                        + if answer then [Answered(s.waiter.value.id, false)] else [])
    case NewHead(h) =>
      && s.pc == AtSelect
      && t == s.(pc := LoopTop, newHead := h, log := s.log + [HeadArrived(h)])
    case Sync(id) =>
      && s.pc == AtSelect && !Accepted(s.log, id)  // every call brings its own channel
      && t == s.(pc := LoopTop, forced := true, waiter := Some(Waiter(id, |s.log|)),
                 log := s.log + [SyncAccepted(id)])
    case Quit =>
      && s.pc == AtSelect
      && t == s.(pc := Exiting, log := s.log + [QuitAccepted])
    case Terminate =>
      && s.pc == Exiting
      && t == s.(pc := Terminated, waiter := None,
                 log := s.log + if s.waiter.Some? then [Answered(s.waiter.value.id, true)] else [])
    case Abandon(i) =>
      && s.pc == Terminated && i < |s.running| && |s.running[i].doneAt| == c.pools
      && t == s.(running := Without(s.running, i))
    case LateSync(id) =>
      && s.pc == Terminated
      && t == s.(log := s.log + [Refused(id)])
  }

  /** A run of the protocol from its initial state. */
  ghost predicate IsRun(c: Config, states: seq<State>, steps: seq<Step>) {
    && |states| == |steps| + 1
    && Init(c, states[0])
    && forall k :: 0 <= k < |steps| ==> Next(c, states[k], steps[k], states[k + 1])
  }

  // ---------- reading the log ----------

  function LatestHead(log: seq<Event>, init: Header): Header {
    if log == [] then init
    else
      var last := log[|log| - 1];
      if last.HeadArrived? then last.head else LatestHead(log[..|log| - 1], init)
  }

  /** The new head of the reset started last. */
  function LastResetHead(log: seq<Event>, init: Header): Header {
    if log == [] then init
    else
      var last := log[|log| - 1];
      if last.ResetStarted? then last.to else LastResetHead(log[..|log| - 1], init)
  }

  predicate Accepted(log: seq<Event>, id: nat) {
    SyncAccepted(id) in log
  }

  predicate AnswerIn(log: seq<Event>, id: nat) {
    Answered(id, false) in log || Answered(id, true) in log
  }

  /** The Sync call that an answer would go to. */
  function PendingCall(log: seq<Event>): Option<nat> {
    if log == [] then None
    else
      var last := log[|log| - 1];
      if last.SyncAccepted? then Some(last.id)
      else if last.Answered? then None
      else PendingCall(log[..|log| - 1])
  }

  /** A further Sync call was accepted while this one was pending. */
  ghost predicate Superseded(log: seq<Event>, id: nat) {
    exists k :: 0 <= k < |log| && log[k].SyncAccepted? && PendingCall(log[..k]) == Some(id)
  }

  /**
   * The reset that justifies the answer at position k: it started after the call was accepted,
   * from the newest head of that moment, and every subpool has completed it.
   */
  ghost predicate Covered(c: Config, log: seq<Event>, k: nat, id: nat)
    requires k <= |log|
  {
    exists i: nat, j: nat :: CoveredBy(c, log, k, id, i, j)
  }

  ghost predicate CoveredBy(c: Config, log: seq<Event>, k: nat, id: nat, i: nat, j: nat)
    requires k <= |log|
  {
    && i < j < k && log[i] == SyncAccepted(id)
    && log[j].ResetStarted? && log[j].to == LatestHead(log[..j], c.init)
    && forall p :: 0 <= p < c.pools ==> SubpoolDone(log, k, j, p)
  }

  ghost predicate SubpoolDone(log: seq<Event>, k: nat, start: nat, p: nat)
    requires k <= |log|
  {
    exists m :: start < m < k && log[m] == SubpoolReset(start, p)
  }

  // ---------- the invariant ----------

  ghost predicate Control(s: State) {
    && (s.pc != Terminated ==> |s.running| == if s.busy then 1 else 0)
    && (s.pc == AtSelect ==> s.busy || !ResetNeeded(s))
    && (s.pc == Terminated ==> s.waiter == None && |s.running| <= 1)
    && (forall i :: 0 <= i < |s.running| && s.pc != Terminated ==> s.running[i].from == s.oldHead)
  }

  ghost predicate Recorded(c: Config, log: seq<Event>, g: Goroutine) {
    && g.start < |log| && log[g.start] == ResetStarted(g.from, g.to)
    && |g.doneAt| <= c.pools
    && forall p :: 0 <= p < |g.doneAt| ==> g.start < g.doneAt[p] < |log| && log[g.doneAt[p]] == SubpoolReset(g.start, p)
  }

  ghost predicate Tracked(c: Config, s: State) {
    && (forall i :: 0 <= i < |s.running| ==> Recorded(c, s.log, s.running[i]))
    && (s.waiter.Some? ==>
          && s.waiter.value.acceptedAt < |s.log|
          && s.log[s.waiter.value.acceptedAt] == SyncAccepted(s.waiter.value.id)
          && (!s.forced ==> |s.running| == 1 && s.running[0].start > s.waiter.value.acceptedAt))
  }

  ghost predicate HeadsChained(c: Config, s: State) {
    && s.newHead == LatestHead(s.log, c.init)
    && (s.pc != Terminated ==>
          LastResetHead(s.log, c.init) == if s.busy && |s.running| == 1 then s.running[0].to else s.oldHead)
    && ResetsChained(c, s.log)
  }

  /** Every reset goes from where the previous one ended to the newest head. */
  ghost predicate ResetsChained(c: Config, log: seq<Event>) {
    forall j :: 0 <= j < |log| && log[j].ResetStarted? ==>
      log[j].from == LastResetHead(log[..j], c.init) && log[j].to == LatestHead(log[..j], c.init)
  }

  ghost predicate AnswersCovered(c: Config, log: seq<Event>) {
    forall k :: 0 <= k < |log| && log[k].Answered? && !log[k].terminated ==> Covered(c, log, k, log[k].id)
  }

  /** Every accepted call is answered, superseded or pending, and no two of these. */
  ghost predicate Fates(s: State) {
    && PendingCall(s.log) == (if s.waiter.Some? then Some(s.waiter.value.id) else None)
    && (forall id :: PendingCall(s.log) == Some(id) ==> Accepted(s.log, id))
    && forall id :: Fate(s.log, id)
  }

  ghost predicate Fate(log: seq<Event>, id: nat) {
    && (Accepted(log, id) <==> AnswerIn(log, id) || Superseded(log, id) || PendingCall(log) == Some(id))
    && !(AnswerIn(log, id) && Superseded(log, id))
    && (PendingCall(log) == Some(id) ==> !AnswerIn(log, id) && !Superseded(log, id))
  }

  ghost predicate Inv(c: Config, s: State) {
    Control(s) && Tracked(c, s) && HeadsChained(c, s) && AnswersCovered(c, s.log) && Fates(s)
  }

  // ---------- how the readings of the log react to one more event ----------

  lemma ReadAppend(c: Config, log: seq<Event>, e: Event)
    ensures LatestHead(log + [e], c.init) == if e.HeadArrived? then e.head else LatestHead(log, c.init)
    ensures LastResetHead(log + [e], c.init) == if e.ResetStarted? then e.to else LastResetHead(log, c.init)
    ensures PendingCall(log + [e])
            == if e.SyncAccepted? then Some(e.id) else if e.Answered? then None else PendingCall(log)
  {
    assert (log + [e])[..|log|] == log;
  }

  lemma RecordedAppend(c: Config, log: seq<Event>, more: seq<Event>, g: Goroutine)
    requires Recorded(c, log, g)
    ensures Recorded(c, log + more, g)
  {
  }

  lemma ChainedAppend(c: Config, log: seq<Event>, e: Event)
    requires ResetsChained(c, log)
    requires e.ResetStarted? ==> e.from == LastResetHead(log, c.init) && e.to == LatestHead(log, c.init)
    ensures ResetsChained(c, log + [e])
  {
    forall j | 0 <= j <= |log| ensures (log + [e])[..j] == log[..j] {
    }
    assert log[..|log|] == log;
  }

  lemma CoveredAppend(c: Config, log: seq<Event>, e: Event, k: nat, id: nat)
    requires k <= |log| && Covered(c, log, k, id)
    ensures Covered(c, log + [e], k, id)
  {
    var i: nat, j: nat :| CoveredBy(c, log, k, id, i, j);
    assert (log + [e])[..j] == log[..j];
    forall p | 0 <= p < c.pools ensures SubpoolDone(log + [e], k, j, p) {
      assert SubpoolDone(log, k, j, p);
      var m :| j < m < k && log[m] == SubpoolReset(j, p);
      assert (log + [e])[m] == SubpoolReset(j, p);
    }
    assert CoveredBy(c, log + [e], k, id, i, j);
  }

  lemma AnswersAppend(c: Config, log: seq<Event>, e: Event)
    requires AnswersCovered(c, log)
    requires e.Answered? && !e.terminated ==> Covered(c, log, |log|, e.id)
    ensures AnswersCovered(c, log + [e])
  {
    var t := log + [e];
    forall k | 0 <= k < |t| && t[k].Answered? && !t[k].terminated ensures Covered(c, t, k, t[k].id) {
      CoveredAppend(c, log, e, k, t[k].id);
    }
  }

  lemma SupersededAppend(log: seq<Event>, e: Event, id: nat)
    ensures Superseded(log + [e], id) <==> Superseded(log, id) || (e.SyncAccepted? && PendingCall(log) == Some(id))
  {
    var t := log + [e];
    forall k | 0 <= k <= |log| ensures t[..k] == log[..k] {
    }
    assert log[..|log|] == log && t[|log|] == e;
    if k :| 0 <= k < |log| && log[k].SyncAccepted? && PendingCall(log[..k]) == Some(id) {
      assert t[k].SyncAccepted? && PendingCall(t[..k]) == Some(id);
    }
  }

  /** Sync calls have fresh identities and answers go to the pending call: then fates stay exact. */
  lemma FateAppend(c: Config, log: seq<Event>, e: Event)
    requires forall id :: Fate(log, id)
    requires e.SyncAccepted? ==> !Accepted(log, e.id)
    requires e.Answered? ==> PendingCall(log) == Some(e.id)
    ensures forall id :: Fate(log + [e], id)
  {
    ReadAppend(c, log, e);
    forall id ensures Fate(log + [e], id) {
      SupersededAppend(log, e, id);
      assert Fate(log, id);
      if e.SyncAccepted? {
        assert Fate(log, e.id);
      }
    }
  }

  // ---------- each part is kept by every step ----------

  lemma ControlStep(c: Config, s: State, step: Step, t: State)
    requires Control(s) && Next(c, s, step, t)
    ensures Control(t)
  {
  }

  /** The events a step records. */
  ghost function Recording(s: State, t: State): seq<Event>
    requires |s.log| <= |t.log|
  {
    t.log[|s.log|..]
  }

  lemma LogGrows(c: Config, s: State, step: Step, t: State)
    requires Next(c, s, step, t)
    ensures |s.log| <= |t.log| && t.log == s.log + Recording(s, t)
  {
  }

  lemma TrackedStep(c: Config, s: State, step: Step, t: State)
    requires Control(s) && Tracked(c, s) && Next(c, s, step, t)
    ensures Tracked(c, t)
  {
    LogGrows(c, s, step, t);
    forall k | 0 <= k < |s.running| ensures Recorded(c, t.log, s.running[k]) {
      RecordedAppend(c, s.log, Recording(s, t), s.running[k]);
    }
    RunningStep(c, s, step, t);
  }

  lemma RunningStep(c: Config, s: State, step: Step, t: State)
    requires Control(s) && Next(c, s, step, t)
    requires forall k :: 0 <= k < |s.running| ==> Recorded(c, t.log, s.running[k])
    ensures forall k :: 0 <= k < |t.running| ==> Recorded(c, t.log, t.running[k])
  {
  }

  lemma HeadsStep(c: Config, s: State, step: Step, t: State)
    requires Control(s) && HeadsChained(c, s) && Next(c, s, step, t)
    ensures HeadsChained(c, t)
  {
    LogGrows(c, s, step, t);
    var more := Recording(s, t);
    if |more| >= 1 {
      ReadAppend(c, s.log, more[0]);
      ChainedAppend(c, s.log, more[0]);
      var mid := s.log + [more[0]];
      if |more| == 2 {
        assert t.log == mid + [more[1]];
        ReadAppend(c, mid, more[1]);
        ChainedAppend(c, mid, more[1]);
      } else {
        assert t.log == mid;
      }
    } else {
      assert t.log == s.log;
    }
  }

  /** At a completed reset the pending call, unless a forced reset is still owed, is covered. */
  lemma DoneCovers(c: Config, s: State, i: nat)
    requires Control(s) && Tracked(c, s) && HeadsChained(c, s)
    requires s.pc == AtSelect && i < |s.running| && |s.running[i].doneAt| == c.pools
    requires s.waiter.Some? && !s.forced
    ensures Covered(c, s.log, |s.log|, s.waiter.value.id)
  {
    var g, w := s.running[i], s.waiter.value;
    assert Recorded(c, s.log, g);
    forall p | 0 <= p < c.pools ensures SubpoolDone(s.log, |s.log|, g.start, p) {
      assert s.log[g.doneAt[p]] == SubpoolReset(g.start, p);
    }
    assert CoveredBy(c, s.log, |s.log|, w.id, w.acceptedAt, g.start);
  }

  lemma AnswersStep(c: Config, s: State, step: Step, t: State)
    requires Control(s) && Tracked(c, s) && HeadsChained(c, s) && AnswersCovered(c, s.log) && Next(c, s, step, t)
    ensures AnswersCovered(c, t.log)
  {
    LogGrows(c, s, step, t);
    var more := Recording(s, t);
    if |more| == 2 {
      var mid := s.log + [more[0]];
      assert t.log == mid + [more[1]];
      AnswersAppend(c, s.log, more[0]);
      DoneCovers(c, s, step.i);
      CoveredAppend(c, s.log, more[0], |s.log|, more[1].id);
      CoveredLater(c, mid, |s.log|, |mid|, more[1].id);
      AnswersAppend(c, mid, more[1]);
    } else if |more| == 1 {
      assert t.log == s.log + [more[0]];
      AnswersAppend(c, s.log, more[0]);
    } else {
      assert t.log == s.log;
    }
  }

  lemma CoveredLater(c: Config, log: seq<Event>, k: nat, k': nat, id: nat)
    requires k <= k' <= |log| && Covered(c, log, k, id)
    ensures Covered(c, log, k', id)
  {
    var i: nat, j: nat :| CoveredBy(c, log, k, id, i, j);
    forall p | 0 <= p < c.pools ensures SubpoolDone(log, k', j, p) {
      assert SubpoolDone(log, k, j, p);
    }
    assert CoveredBy(c, log, k', id, i, j);
  }

  lemma FatesStep(c: Config, s: State, step: Step, t: State)
    requires Control(s) && Fates(s) && Next(c, s, step, t)
    ensures Fates(t)
  {
    LogGrows(c, s, step, t);
    var more := Recording(s, t);
    if |more| >= 1 {
      ReadAppend(c, s.log, more[0]);
      FateAppend(c, s.log, more[0]);
      var mid := s.log + [more[0]];
      if |more| == 2 {
        assert t.log == mid + [more[1]];
        ReadAppend(c, mid, more[1]);
        FateAppend(c, mid, more[1]);
      } else {
        assert t.log == mid;
      }
    } else {
      assert t.log == s.log;
    }
  }

  /** The invariant holds in every state of every run. */
  lemma {:induction false} RunsKeepInvariant(c: Config, states: seq<State>, steps: seq<Step>, k: nat)
    requires IsRun(c, states, steps) && k < |states|
    ensures Inv(c, states[k])
  {
    if k > 0 {
      RunsKeepInvariant(c, states, steps, k - 1);
      var s, step, t := states[k - 1], steps[k - 1], states[k];
      ControlStep(c, s, step, t);
      TrackedStep(c, s, step, t);
      HeadsStep(c, s, step, t);
      AnswersStep(c, s, step, t);
      FatesStep(c, s, step, t);
    }
  }

  // ---------- what follows for every run ----------

  /** The head that arrived last, or the initial one. */
  function NewestHead(c: Config, steps: seq<Step>): Header {
    if steps == [] then c.init
    else
      var last := steps[|steps| - 1];
      if last.NewHead? then last.head else NewestHead(c, steps[..|steps| - 1])
  }

  /** The loop and its log know the newest head, whatever was going on when it arrived. */
  lemma {:induction false} HeadsFollowSteps(c: Config, states: seq<State>, steps: seq<Step>, k: nat)
    requires IsRun(c, states, steps) && k < |states|
    ensures states[k].newHead == NewestHead(c, steps[..k])
    ensures LatestHead(states[k].log, c.init) == NewestHead(c, steps[..k])
  {
    hide LatestHead, LastResetHead, ResetsChained, Control, Tracked, AnswersCovered, Fates;
    RunsKeepInvariant(c, states, steps, k);
    if k > 0 {
      HeadsFollowSteps(c, states, steps, k - 1);
      assert Next(c, states[k - 1], steps[k - 1], states[k]);
      assert steps[..k][..k - 1] == steps[..k - 1] && steps[..k][k - 1] == steps[k - 1];
    }
  }

  /**
   * No head update is lost: whenever the loop blocks in its select, either exactly one reset is
   * under way or the subpools have been brought to the head that arrived last and no forced reset is
   * owed. Never are two resets under way.
   */
  lemma NoLostHead(c: Config, states: seq<State>, steps: seq<Step>, k: nat)
    requires IsRun(c, states, steps) && k < |states|
    ensures |states[k].running| <= 1
    ensures states[k].pc == AtSelect && |states[k].running| != 1 ==>
              && states[k].oldHead == NewestHead(c, steps[..k])
              && LastResetHead(states[k].log, c.init) == NewestHead(c, steps[..k])
              && !states[k].forced
  {
    hide NewestHead, LatestHead, LastResetHead;
    RunsKeepInvariant(c, states, steps, k);
    HeadsFollowSteps(c, states, steps, k);
  }

  /** Each reset starts at the head where the previous one ended and leads to the head that arrived last. */
  lemma ResetsFormAChain(c: Config, states: seq<State>, steps: seq<Step>, k: nat)
    requires IsRun(c, states, steps) && k < |steps| && steps[k].Start?
    ensures var from, to := LastResetHead(states[k].log, c.init), NewestHead(c, steps[..k]);
            && states[k + 1].log == states[k].log + [ResetStarted(from, to)]
            && states[k + 1].running == [Goroutine(|states[k].log|, from, to, [])]
  {
    hide NewestHead, LatestHead, LastResetHead;
    RunsKeepInvariant(c, states, steps, k);
    HeadsFollowSteps(c, states, steps, k);
    assert Next(c, states[k], steps[k], states[k + 1]);
  }

  lemma AnswerCovered(c: Config, states: seq<State>, steps: seq<Step>, k: nat, m: nat)
    requires IsRun(c, states, steps) && k < |states|
    requires m < |states[k].log| && states[k].log[m].Answered? && !states[k].log[m].terminated
    ensures Covered(c, states[k].log, m, states[k].log[m].id)
  {
    RunsKeepInvariant(c, states, steps, k);
  }

  /**
   * Once the pool has terminated, an accepted Sync call has been answered exactly when no other
   * call was accepted while it was pending; a superseded caller is never answered.
   */
  lemma AnsweredExactlyWhen(c: Config, states: seq<State>, steps: seq<Step>, k: nat, id: nat)
    requires IsRun(c, states, steps) && k < |states|
    requires states[k].pc == Terminated && Accepted(states[k].log, id)
    ensures AnswerIn(states[k].log, id) <==> !Superseded(states[k].log, id)
  {
    RunsKeepInvariant(c, states, steps, k);
    assert Fate(states[k].log, id);
  }

  /** Two callers are enough to lose one: the second Sync overwrites the waiter of the first. */
  lemma SecondSyncSupersedes(c: Config) returns (states: seq<State>, steps: seq<Step>)
    ensures IsRun(c, states, steps) && Superseded(states[|steps|].log, 0)
  {
    var s0 := State(LoopTop, c.init, c.init, false, [], false, None, []);
    var s1 := s0.(pc := AtSelect);
    var s2 := s1.(pc := LoopTop, forced := true, waiter := Some(Waiter(0, 0)), log := [SyncAccepted(0)]);
    var g := Goroutine(1, c.init, c.init, []);
    var s3 := s2.(pc := AtSelect, busy := true, forced := false, running := [g],
                  log := [SyncAccepted(0), ResetStarted(c.init, c.init)]);
    var s4 := s3.(pc := LoopTop, forced := true, waiter := Some(Waiter(1, 2)), log := s3.log + [SyncAccepted(1)]);
    states, steps := [s0, s1, s2, s3, s4], [Skip, Sync(0), Start, Sync(1)];
    assert s4.log[..2] == s3.log && s3.log[..1] == [SyncAccepted(0)];
    assert s4.log[2].SyncAccepted? && PendingCall(s4.log[..2]) == Some(0);
  }

  /** With a call pending, quitting leads to an error answer and to nothing else. */
  lemma QuitAnswersPending(c: Config, states: seq<State>, steps: seq<Step>, k: nat)
    requires IsRun(c, states, steps) && k + 1 < |states|
    requires states[k].pc == Exiting && states[k + 1].pc == Terminated && PendingCall(states[k].log).Some?
    ensures states[k + 1].log == states[k].log + [Answered(PendingCall(states[k].log).value, true)]
  {
    RunsKeepInvariant(c, states, steps, k);
  }

  // ---------- progress ----------

  /** A step of the pool itself, as opposed to one caused from outside. */
  predicate Internal(step: Step) {
    step.Start? || step.Skip? || step.ResetSubpool? || step.Done?
  }

  predicate Serving(s: State) {
    s.pc == LoopTop || s.pc == AtSelect
  }

  /** The head the subpools will be at once the reset under way is through. */
  function TargetHead(s: State): Header {
    if s.running == [] then s.oldHead else s.running[0].to
  }

  ghost function Work(c: Config, s: State): nat
    requires Inv(c, s) && Serving(s)
  {
    (if s.forced || s.newHead != TargetHead(s) then c.pools + 6 else 0)
    + (if s.running == [] then 0 else assert Recorded(c, s.log, s.running[0]); c.pools - |s.running[0].doneAt| + 2)
    + (if s.pc == LoopTop then 1 else 0)
  }

  ghost predicate Quiescent(s: State) {
    s.pc == AtSelect && s.running == [] && s.oldHead == s.newHead && !s.forced && s.waiter == None
  }

  /** Every internal step reduces the outstanding work. */
  lemma InternalStepReducesWork(c: Config, s: State, step: Step, t: State)
    requires Inv(c, s) && Inv(c, t) && Serving(s) && Internal(step) && Next(c, s, step, t)
    ensures Serving(t) && Work(c, t) < Work(c, s)
  {
    hide HeadsChained, AnswersCovered, Fates;
  }

  /** Unless everything is done and every caller answered, some internal step is possible. */
  lemma NeverStuck(c: Config, s: State)
    requires Inv(c, s) && Serving(s) && !Quiescent(s)
    ensures exists step, t :: Internal(step) && Next(c, s, step, t)
  {
    if s.pc == LoopTop {
      if ResetNeeded(s) && !s.busy {
        assert Next(c, s, Start, s.(pc := AtSelect, busy := true, forced := false,
                                    running := s.running + [Goroutine(|s.log|, s.oldHead, s.newHead, [])],
                                    log := s.log + [ResetStarted(s.oldHead, s.newHead)]));
      } else {
        assert Next(c, s, Skip, s.(pc := AtSelect));
      }
    } else {
      var g := s.running[0];
      assert Recorded(c, s.log, g);
      if |g.doneAt| < c.pools {
        assert Next(c, s, ResetSubpool(0), s.(running := s.running[0 := g.(doneAt := g.doneAt + [|s.log|])],
                                              log := s.log + [SubpoolReset(g.start, |g.doneAt|)]));
      } else {
        var answer := s.waiter.Some? && !s.forced;
        assert Next(c, s, Done(0), s.(pc := LoopTop, oldHead := g.to, busy := false,
                                      running := Without(s.running, 0),
                                      waiter := if answer then None else s.waiter,
                                      log := s.log + [ResetFinished(g.start)]
                                             + if answer then [Answered(s.waiter.value.id, false)] else []));
      }
    }
  }

  /**
   * Left alone, the pool settles: from any serving state it takes at most Work internal steps, and
   * it can stop only with every caller answered and the subpools at the newest head.
   */
  lemma {:induction false} InternalRunSettles(c: Config, states: seq<State>, steps: seq<Step>, k: nat)
    requires IsRun(c, states, steps) && k < |states| && Serving(states[k])
    requires forall m :: k <= m < |steps| ==> Internal(steps[m])
    ensures Inv(c, states[k]) && |steps| - k <= Work(c, states[k])
    ensures var last := states[|steps|];
            || (exists step, t :: Internal(step) && Next(c, last, step, t))
            || (Quiescent(last) && last.oldHead == NewestHead(c, steps)
                && LastResetHead(last.log, c.init) == NewestHead(c, steps))
    decreases |steps| - k
  {
    RunsKeepInvariant(c, states, steps, k);
    if k < |steps| {
      RunsKeepInvariant(c, states, steps, k + 1);
      InternalStepReducesWork(c, states[k], steps[k], states[k + 1]);
      InternalRunSettles(c, states, steps, k + 1);
    } else {
      HeadsFollowSteps(c, states, steps, k);
      assert steps[..k] == steps;
      if !Quiescent(states[k]) {
        NeverStuck(c, states[k]);
      }
    }
  }
}
