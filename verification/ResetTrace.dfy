/** The log of the reset protocol against the steps of a run: nothing is recorded that did not happen, or left out. */
module ResetTrace {
  import opened Wrappers
  import opened ResetLoop

  // ---------- what comes from outside ----------

  function Request(step: Step): seq<Event> {
    match step
    case NewHead(h) => [HeadArrived(h)]
    case Sync(id) => [SyncAccepted(id)]
    case Quit => [QuitAccepted]
    case LateSync(id) => [Refused(id)]
    case _ => []
  }

  /** The heads, calls and the closing that a run met, in order. */
  function Requests(steps: seq<Step>): seq<Event> {
    if steps == [] then [] else Requests(steps[..|steps| - 1]) + Request(steps[|steps| - 1])
  }

  predicate FromOutside(e: Event) {
    e.HeadArrived? || e.SyncAccepted? || e.QuitAccepted? || e.Refused?
  }

  function OutsideEvents(log: seq<Event>): seq<Event> {
    if log == [] then []
    else OutsideEvents(log[..|log| - 1]) + if FromOutside(log[|log| - 1]) then [log[|log| - 1]] else []
  }

  lemma {:induction false} OutsideAppend(log: seq<Event>, more: seq<Event>)
    ensures OutsideEvents(log + more) == OutsideEvents(log) + OutsideEvents(more)
    decreases |more|
  {
    if more == [] {
      assert log + more == log;
    } else {
      OutsideAppend(log, more[..|more| - 1]);
      assert (log + more)[..|log + more| - 1] == log + more[..|more| - 1];
    }
  }

  lemma StepRecords(c: Config, s: State, step: Step, t: State)
    requires Next(c, s, step, t)
    ensures OutsideEvents(t.log) == OutsideEvents(s.log) + Request(step)
  {
    hide OutsideEvents;
    LogGrows(c, s, step, t);
    var more := Recording(s, t);
    OutsideAppend(s.log, more);
    ShortOutside(more);
  }

  lemma ShortOutside(more: seq<Event>)
    requires |more| <= 2
    ensures |more| == 0 ==> OutsideEvents(more) == []
    ensures |more| == 1 ==> OutsideEvents(more) == if FromOutside(more[0]) then more else []
    ensures |more| == 2 && !FromOutside(more[0]) && !FromOutside(more[1]) ==> OutsideEvents(more) == []
  {
    if |more| == 2 {
      assert more[..1] == [more[0]];
    }
    if |more| >= 1 {
      assert [more[0]][..0] == [];
      assert OutsideEvents([more[0]]) == if FromOutside(more[0]) then [more[0]] else [];
    }
  }

  /** Every head, call and closing of a run is in the log, once, in order, and nothing else of the kind. */
  lemma {:induction false} RequestsRecorded(c: Config, states: seq<State>, steps: seq<Step>, k: nat)
    requires IsRun(c, states, steps) && k < |states|
    ensures OutsideEvents(states[k].log) == Requests(steps[..k])
  {
    hide Request, OutsideEvents, Next;
    if k == 0 {
      NothingRecorded(c, states[0]);
    } else {
      RequestsRecorded(c, states, steps, k - 1);
      StepRecords(c, states[k - 1], steps[k - 1], states[k]);
      assert steps[..k][..k - 1] == steps[..k - 1] && steps[..k][k - 1] == steps[k - 1];
    }
  }

  lemma NothingRecorded(c: Config, s: State)
    requires Init(c, s)
    ensures OutsideEvents(s.log) == []
  {
  }

  /** While the loop waits it takes any head, any new call and the closing; a terminated pool refuses every call. */
  lemma RequestsPossible(c: Config, s: State, h: Header, id: nat)
    ensures s.pc == AtSelect ==> exists t :: Next(c, s, NewHead(h), t)
    ensures s.pc == AtSelect && SyncAccepted(id) !in s.log ==> exists t :: Next(c, s, Sync(id), t)
    ensures s.pc == AtSelect ==> exists t :: Next(c, s, Quit, t)
    ensures s.pc == Terminated ==> exists t :: Next(c, s, LateSync(id), t)
  {
    if s.pc == AtSelect {
      assert Next(c, s, NewHead(h), s.(pc := LoopTop, newHead := h, log := s.log + [HeadArrived(h)]));
      assert Next(c, s, Quit, s.(pc := Exiting, log := s.log + [QuitAccepted]));
      if SyncAccepted(id) !in s.log {
        assert Next(c, s, Sync(id), s.(pc := LoopTop, forced := true, waiter := Some(Waiter(id, |s.log|)),
                                       log := s.log + [SyncAccepted(id)]));
      }
    }
    if s.pc == Terminated {
      assert Next(c, s, LateSync(id), s.(log := s.log + [Refused(id)]));
    }
  }

  // ---------- the step of an event ----------

  lemma {:induction false} LogPrefix(c: Config, states: seq<State>, steps: seq<Step>, m: nat, k: nat)
    requires IsRun(c, states, steps) && m <= k < |states|
    ensures states[m].log <= states[k].log
  {
    hide Next;
    if m < k {
      LogPrefix(c, states, steps, m, k - 1);
      LogGrows(c, states[k - 1], steps[k - 1], states[k]);
    }
  }

  /** The step that recorded the event at a log position. */
  lemma {:induction false} EventStep(c: Config, states: seq<State>, steps: seq<Step>, k: nat, pos: nat) returns (m: nat)
    requires IsRun(c, states, steps) && k < |states| && pos < |states[k].log|
    ensures m < k && |states[m].log| <= pos < |states[m + 1].log|
    ensures states[m + 1].log[pos] == states[k].log[pos]
  {
    hide Next;
    if k > 0 {
      LogGrows(c, states[k - 1], steps[k - 1], states[k]);
      if pos < |states[k - 1].log| {
        m := EventStep(c, states, steps, k - 1, pos);
      } else {
        m := k - 1;
      }
    }
  }

  /** Which step records which event. */
  lemma EventKind(c: Config, s: State, step: Step, t: State, pos: nat)
    requires Next(c, s, step, t) && |s.log| <= pos < |t.log|
    ensures t.log[pos].SyncAccepted? ==> step == Sync(t.log[pos].id)
    ensures t.log[pos].ResetStarted? ==> step.Start? && pos == |s.log|
    ensures t.log[pos].SubpoolReset? ==> step.ResetSubpool? && t.log == s.log + [t.log[pos]]
    ensures t.log[pos].Answered? && !t.log[pos].terminated ==> step.Done?
  {
  }

  // ---------- answers, by steps ----------

  /** Step n resets subpool p in the reset begun at log position start. */
  ghost predicate ResetsPool(states: seq<State>, steps: seq<Step>, n: nat, start: nat, p: nat)
    requires n < |steps| && |states| == |steps| + 1
  {
    steps[n].ResetSubpool? && states[n + 1].log == states[n].log + [SubpoolReset(start, p)]
  }

  /** Between steps j and d, subpool p is reset in the reset that step j begins. */
  ghost predicate PoolReset(states: seq<State>, steps: seq<Step>, j: nat, d: nat, p: nat)
    requires j < d < |steps| && |states| == |steps| + 1
  {
    exists n :: j < n < d && ResetsPool(states, steps, n, |states[j].log|, p)
  }

  /**
   * Before step d: the call was accepted in step i, a reset began in a later step j, leading to the
   * head that had arrived last, and every subpool was reset for it after that.
   */
  ghost predicate ServedBy(c: Config, states: seq<State>, steps: seq<Step>, d: nat, id: nat, i: nat, j: nat)
    requires d < |steps| && |states| == |steps| + 1
  {
    && i < j < d && steps[i] == Sync(id) && steps[j] == Start
    && states[j + 1].log == states[j].log + [ResetStarted(LastResetHead(states[j].log, c.init), NewestHead(c, steps[..j]))]
    && forall p :: 0 <= p < c.pools ==> PoolReset(states, steps, j, d, p)
  }

  lemma PositionsOrdered(c: Config, states: seq<State>, steps: seq<Step>, m: nat, n: nat, a: nat, b: nat)
    requires IsRun(c, states, steps) && m < |steps| && n < |steps|
    requires |states[m].log| <= a < |states[m + 1].log| && |states[n].log| <= b < |states[n + 1].log| && a < b
    ensures m <= n
  {
    hide Next;
    if n < m {
      LogPrefix(c, states, steps, n + 1, m);
    }
  }

  lemma PoolServed(c: Config, states: seq<State>, steps: seq<Step>, d: nat, j: nat, pos: nat, start: nat, p: nat) returns (n: nat)
    requires IsRun(c, states, steps) && j < d < |steps| && start == |states[j].log| && steps[j] == Start
    requires start < pos < |states[d].log| && states[d].log[pos] == SubpoolReset(start, p)
    ensures j < n < d && ResetsPool(states, steps, n, start, p)
  {
    hide Next;
    n := EventStep(c, states, steps, d, pos);
    EventKind(c, states[n], steps[n], states[n + 1], pos);
    LogPrefix(c, states, steps, j + 1, d);
    StartRecords(c, states[j], states[j + 1]);
    PositionsOrdered(c, states, steps, j, n, start, pos);
  }

  lemma StartRecords(c: Config, s: State, t: State)
    requires Next(c, s, Start, t)
    ensures |t.log| == |s.log| + 1
  {
  }

  /** A Sync call that is answered without error, in step d, has been served. */
  lemma SyncGuarantee(c: Config, states: seq<State>, steps: seq<Step>, d: nat, pos: nat, id: nat)
    requires IsRun(c, states, steps) && d < |steps| && |states[d].log| <= pos < |states[d + 1].log|
    requires states[d + 1].log[pos] == Answered(id, false)
    ensures exists i, j :: ServedBy(c, states, steps, d, id, i, j)
  {
    hide Next, NewestHead, LatestHead, LastResetHead, PoolReset;
    AnswerCovered(c, states, steps, d + 1, pos);
    var log := states[d + 1].log;
    var a: nat, b: nat :| CoveredBy(c, log, pos, id, a, b);
    BeforeAnswer(c, states[d], steps[d], states[d + 1], pos, a);
    BeforeAnswer(c, states[d], steps[d], states[d + 1], pos, b);
    var i := EventStep(c, states, steps, d, a);
    EventKind(c, states[i], steps[i], states[i + 1], a);
    var j := EventStep(c, states, steps, d, b);
    EventKind(c, states[j], steps[j], states[j + 1], b);
    PositionsOrdered(c, states, steps, i, j, a, b);
    ResetsFormAChain(c, states, steps, j);
    forall p | 0 <= p < c.pools ensures PoolReset(states, steps, j, d, p) {
      PoolOfAnswer(c, states, steps, d, pos, j, p);
    }
    assert ServedBy(c, states, steps, d, id, i, j);
  }

  lemma PoolOfAnswer(c: Config, states: seq<State>, steps: seq<Step>, d: nat, pos: nat, j: nat, p: nat)
    requires IsRun(c, states, steps) && j < d < |steps| && |states[d].log| <= pos < |states[d + 1].log|
    requires states[d + 1].log[pos].Answered? && !states[d + 1].log[pos].terminated
    requires steps[j] == Start && SubpoolDone(states[d + 1].log, pos, |states[j].log|, p)
    ensures PoolReset(states, steps, j, d, p)
  {
    hide Next;
    var log, start := states[d + 1].log, |states[j].log|;
    var q :| start < q < pos && log[q] == SubpoolReset(start, p);
    BeforeAnswer(c, states[d], steps[d], states[d + 1], pos, q);
    var n := PoolServed(c, states, steps, d, j, q, start, p);
  }

  /** An answer is recorded right after the end of the reset. */
  lemma BeforeAnswer(c: Config, s: State, step: Step, t: State, pos: nat, x: nat)
    requires Next(c, s, step, t) && |s.log| <= pos < |t.log| && t.log[pos].Answered? && !t.log[pos].terminated
    requires x < pos && !t.log[x].ResetFinished?
    ensures x < |s.log| && s.log[x] == t.log[x]
  {
  }
}
