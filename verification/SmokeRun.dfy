// The smoke run of the daemon entry: a promise settled by whichever of several events
// comes first, and a deadline that escalates from SIGTERM to SIGKILL
// (runDaemonEntry in config/build-plugins/plain-node-entry-guard.ts).
module SmokeRun {
  import opened Wrappers

  datatype Signal = SIGTERM | SIGKILL | OtherSignal

  datatype ExitInfo = ExitInfo(status: Option<int>, signal: Option<Signal>)

  datatype SmokeResult = SmokeResult(exit: ExitInfo, stderr: string, failed: bool, timedOut: bool)

  // What the run does to the outside, in order.
  datatype Action = Kill(signal: Signal) | Resolve(result: SmokeResult)

  // Drain timers are numbered by the exit that armed them; `drainTimer` is the one the
  // variable holds, `drains` those that can still fire.
  datatype State = State(
    stderr: string,
    timedOut: bool,
    settled: bool,
    deadlineArmed: bool,
    forceKillArmed: bool,
    exits: nat,
    drainTimer: Option<nat>,
    drains: map<nat, ExitInfo>,
    actions: seq<Action>)

  const STARTED := State("", false, false, true, false, 0, None, map[], [])

  // Events of the child and of the timers, in any order a runtime could deliver them.  A
  // signal may be refused: then the child's 'error' event comes while the kill is made,
  // before the callback that makes it goes on.
  datatype Event =
    | Data(text: string)
    | DeadlineFires(refused: bool)
    | ForceKillFires(refused: bool)
    | ChildError
    | ChildClose(exit: ExitInfo)
    | ChildExit(exit: ExitInfo)
    | DrainFires(timer: nat)

  predicate Enabled(s: State, e: Event) {
    match e
    case DeadlineFires(_) => s.deadlineArmed
    case ForceKillFires(_) => s.forceKillArmed
    case DrainFires(timer) => timer in s.drains
    case _ => true
  }

  function Disarm(drains: map<nat, ExitInfo>, timer: Option<nat>): map<nat, ExitInfo> {
    if timer.Some? then map t | t in drains && t != timer.value :: drains[t] else drains
  }

  // The first call settles, clears the timers it knows and resolves.
  function Finished(s: State, exit: ExitInfo, failed: bool): State {
    if s.settled then s
    else
      s.(settled := true, deadlineArmed := false, forceKillArmed := false,
         drains := Disarm(s.drains, s.drainTimer),
         actions := s.actions + [Resolve(SmokeResult(exit, s.stderr, failed, s.timedOut))])
  }

  // What the child's 'error' event does.
  function Failed(s: State): State {
    Finished(s, ExitInfo(None, None), true)
  }

  function Apply(s: State, e: Event): State
    requires Enabled(s, e)
  {
    match e
    case Data(text) => s.(stderr := s.stderr + text)
    case DeadlineFires(refused) =>
      var killed := s.(deadlineArmed := false, timedOut := true, actions := s.actions + [Kill(SIGTERM)]);
      (if refused then Failed(killed) else killed).(forceKillArmed := true)
    case ForceKillFires(refused) =>
      var killed := s.(forceKillArmed := false, actions := s.actions + [Kill(SIGKILL)]);
      if refused then Failed(killed) else killed
    case ChildError => Failed(s)
    case ChildClose(exit) => Finished(s, exit, false)
    case ChildExit(exit) =>
      s.(exits := s.exits + 1, drainTimer := Some(s.exits), drains := s.drains[s.exits := exit])
    case DrainFires(timer) =>
      Finished(s.(drains := Disarm(s.drains, Some(timer))), s.drains[timer], false)
  }

  // A run is its events in order.
  predicate Feasible(events: seq<Event>)
    decreases |events|, 0
  {
    events == []
    || (var n := |events| - 1;
        Feasible(events[..n]) && Enabled(After(events[..n]), events[n]))
  }

  function After(events: seq<Event>): State
    requires Feasible(events)
    decreases |events|, 1
  {
    if events == [] then STARTED else Apply(After(events[..|events| - 1]), events[|events| - 1])
  }

  // ---------------------------------------------------------------------------
  // The run itself: the handlers of one promise

  class Run {
    var stderr: string
    var timedOut: bool
    var settled: bool
    var deadlineArmed: bool
    var forceKillArmed: bool
    var exits: nat
    var drainTimer: Option<nat>
    var drains: map<nat, ExitInfo>
    var actions: seq<Action>

    ghost function Value(): State
      reads this
    {
      State(stderr, timedOut, settled, deadlineArmed, forceKillArmed, exits, drainTimer, drains, actions)
    }

    constructor ()
      ensures Value() == STARTED
    {
      stderr, timedOut, settled, deadlineArmed, forceKillArmed := "", false, false, true, false;
      exits, drainTimer, drains, actions := 0, None, map[], [];
    }

    method OnData(chunk: string)
      modifies this`stderr
      ensures Value() == Apply(old(Value()), Data(chunk))
    {
      stderr := stderr + chunk;
    }

    // Sends a signal; where it is refused the 'error' handler runs before this returns.
    method KillChild(signal: Signal, refused: bool)
      modifies this
      ensures Value() ==
        var killed := old(Value()).(actions := old(actions) + [Kill(signal)]);
        if refused then Failed(killed) else killed
    {
      actions := actions + [Kill(signal)];
      if refused {
        OnError();
      }
    }

    // The kill timer is set only after the kill was made.
    method OnDeadline(refused: bool)
      requires deadlineArmed
      modifies this
      ensures Value() == Apply(old(Value()), DeadlineFires(refused))
    {
      deadlineArmed := false;
      timedOut := true;
      KillChild(SIGTERM, refused);
      forceKillArmed := true;
    }

    method OnForceKill(refused: bool)
      requires forceKillArmed
      modifies this
      ensures Value() == Apply(old(Value()), ForceKillFires(refused))
    {
      forceKillArmed := false;
      KillChild(SIGKILL, refused);
    }

    method Finish(exit: ExitInfo, failed: bool)
      modifies this
      ensures Value() == Finished(old(Value()), exit, failed)
    {
      if settled {
        return;
      }
      settled := true;
      deadlineArmed := false;
      forceKillArmed := false;
      drains := Disarm(drains, drainTimer);
      actions := actions + [Resolve(SmokeResult(exit, stderr, failed, timedOut))];
    }

    method OnError()
      modifies this
      ensures Value() == Apply(old(Value()), ChildError)
    {
      Finish(ExitInfo(None, None), true);
    }

    method OnClose(exit: ExitInfo)
      modifies this
      ensures Value() == Apply(old(Value()), ChildClose(exit))
    {
      Finish(exit, false);
    }

    method OnExit(exit: ExitInfo)
      modifies this
      ensures Value() == Apply(old(Value()), ChildExit(exit))
    {
      drains := drains[exits := exit];
      drainTimer := Some(exits);
      exits := exits + 1;
    }

    method OnDrain(timer: nat)
      requires timer in drains
      modifies this
      ensures Value() == Apply(old(Value()), DrainFires(timer))
    {
      var exit := drains[timer];
      drains := Disarm(drains, Some(timer));
      Finish(exit, false);
    }
  }

  // ---------------------------------------------------------------------------
  // What a run must do, read off its events alone

  function AllText(events: seq<Event>): string {
    if events == [] then ""
    else
      var last := events[|events| - 1];
      AllText(events[..|events| - 1]) + (if last.Data? then last.text else "")
  }

  function Exits(events: seq<Event>): seq<ExitInfo> {
    if events == [] then []
    else
      var last := events[|events| - 1];
      Exits(events[..|events| - 1]) + (if last.ChildExit? then [last.exit] else [])
  }

  predicate Finishes(e: Event) {
    e.ChildError? || e.ChildClose? || e.DrainFires?
    || (e.DeadlineFires? && e.refused) || (e.ForceKillFires? && e.refused)
  }

  function FirstFinish(events: seq<Event>): (first: Option<nat>)
    ensures first.Some? ==> first.value < |events| && Finishes(events[first.value])
    ensures first.Some? ==> forall i :: 0 <= i < first.value ==> !Finishes(events[i])
    ensures first.None? ==> forall i :: 0 <= i < |events| ==> !Finishes(events[i])
  {
    if events == [] then None
    else
      var n := |events| - 1;
      var before := FirstFinish(events[..n]);
      if before.Some? then before else if Finishes(events[n]) then Some(n) else None
  }

  predicate Deadline(events: seq<Event>) {
    exists i :: 0 <= i < |events| && events[i].DeadlineFires?
  }

  // The deadline's SIGTERM was refused.
  predicate Refused(events: seq<Event>) {
    exists i :: 0 <= i < |events| && events[i].DeadlineFires? && events[i].refused
  }

  predicate ForceKill(events: seq<Event>) {
    exists i :: 0 <= i < |events| && events[i].ForceKillFires?
  }

  // What the promise resolves with when event `i` settles it: the text seen before, the
  // deadline seen by then, and the exit of the event or, for a drain, of the exit that
  // armed it.
  function ResultAt(events: seq<Event>, i: nat): SmokeResult
    requires i < |events| && Finishes(events[i])
  {
    var before := events[..i];
    ResultNow(AllText(before), Exits(before), Deadline(before), events[i])
  }

  // What an event settles with, given the past.
  function ResultNow(text: string, exits: seq<ExitInfo>, deadline: bool, e: Event): SmokeResult
    requires Finishes(e)
  {
    match e
    case ChildClose(exit) => SmokeResult(exit, text, false, deadline)
    case DrainFires(timer) =>
      SmokeResult(if timer < |exits| then exits[timer] else ExitInfo(None, None), text, false, deadline)
    case _ => SmokeResult(ExitInfo(None, None), text, true, deadline || e.DeadlineFires?)
  }

  // Everything about the past that a run depends on.
  datatype History = History(text: string, exits: seq<ExitInfo>, deadline: bool, refused: bool, forceKill: bool,
                             result: Option<SmokeResult>)

  function HistoryOf(events: seq<Event>): History {
    History(AllText(events), Exits(events), Deadline(events), Refused(events), ForceKill(events),
            match FirstFinish(events)
            case None => None
            case Some(i) => Some(ResultAt(events, i)))
  }

  // The actions a history calls for: the kills, then the one resolution - but a resolution
  // brought about by refusing SIGTERM comes before the other kill.
  function ActionsOf(h: History): seq<Action> {
    var kill := if h.forceKill then [Kill(SIGKILL)] else [];
    var resolve := if h.result.Some? then [Resolve(h.result.value)] else [];
    (if h.deadline then [Kill(SIGTERM)] else []) + (if h.refused then resolve + kill else kill + resolve)
  }

  predicate Agrees(s: State, h: History) {
    && s.stderr == h.text
    && s.exits == |h.exits|
    && (forall t <- s.drains :: t < s.exits && s.drains[t] == h.exits[t])
    && (!s.settled ==> forall t :: 0 <= t < s.exits ==> t in s.drains)
    && s.settled == h.result.Some?
    && s.timedOut == h.deadline
    && s.deadlineArmed == (!s.settled && !s.timedOut)
    && s.forceKillArmed == ((!s.settled || h.refused) && s.timedOut && !h.forceKill)
    && (h.forceKill ==> h.deadline)
    && (h.refused ==> h.deadline && s.settled)
    && s.actions == ActionsOf(h)
  }

  function Extend(h: History, e: Event): History {
    var settled := if Finishes(e) && h.result.None? then h.(result := Some(ResultNow(h.text, h.exits, h.deadline, e)))
                   else h;
    match e
    case Data(text) => h.(text := h.text + text)
    case DeadlineFires(refused) => settled.(deadline := true, refused := h.refused || refused)
    case ForceKillFires(_) => settled.(forceKill := true)
    case ChildExit(exit) => h.(exits := h.exits + [exit])
    case _ => settled
  }

  lemma HappenedGrows(before: seq<Event>, e: Event)
    ensures Deadline(before + [e]) <==> Deadline(before) || e.DeadlineFires?
    ensures Refused(before + [e]) <==> Refused(before) || (e.DeadlineFires? && e.refused)
    ensures ForceKill(before + [e]) <==> ForceKill(before) || e.ForceKillFires?
  {
    var events := before + [e];
    assert events[|before|] == e;
    assert forall i :: 0 <= i < |before| ==> events[i] == before[i];
  }

  lemma HistoryGrows(before: seq<Event>, e: Event)
    ensures HistoryOf(before + [e]) == Extend(HistoryOf(before), e)
  {
    var events := before + [e];
    HappenedGrows(before, e);
    assert events[..|before|] == before;
    assert AllText(before) + "" == AllText(before) && Exits(before) + [] == Exits(before);
    var first := FirstFinish(before);
    assert FirstFinish(events) == if first.Some? then first else if Finishes(e) then Some(|before|) else None;
    if first.Some? {
      assert events[..first.value] == before[..first.value];
    }
    hide FirstFinish, Deadline, Refused, ForceKill;
  }

  // The actions an event adds to those its past calls for.
  function ActionsAdded(h: History, e: Event): seq<Action> {
    (match e
     case DeadlineFires(_) => [Kill(SIGTERM)]
     case ForceKillFires(_) => [Kill(SIGKILL)]
     case _ => [])
    + (if Finishes(e) && h.result.None? then [Resolve(ResultNow(h.text, h.exits, h.deadline, e))] else [])
  }

  lemma ActionsGrow(h: History, e: Event)
    requires h.forceKill ==> h.deadline
    requires h.refused ==> h.deadline && h.result.Some?
    requires e.DeadlineFires? ==> !h.deadline && h.result.None?
    requires e.ForceKillFires? ==> h.deadline && !h.forceKill && (h.result.None? || h.refused)
    ensures ActionsOf(Extend(h, e)) == ActionsOf(h) + ActionsAdded(h, e)
  {
    hide ResultNow;
    assert ActionsOf(h) + [] == ActionsOf(h);
  }

  lemma ActionsSent(s: State, h: History, e: Event)
    requires Enabled(s, e) && s.settled == h.result.Some? && s.stderr == h.text && s.timedOut == h.deadline
    requires forall t <- s.drains :: t < |h.exits| && s.drains[t] == h.exits[t]
    ensures Apply(s, e).actions == s.actions + ActionsAdded(h, e)
  {
    assert s.actions + [] == s.actions;
    hide Disarm;
  }

  lemma DrainsKnown(s: State, h: History, e: Event)
    requires Agrees(s, h) && Enabled(s, e)
    ensures var t, g := Apply(s, e), Extend(h, e);
            && t.exits == |g.exits|
            && (forall d <- t.drains :: d < t.exits && t.drains[d] == g.exits[d])
            && (!t.settled ==> forall d :: 0 <= d < t.exits ==> d in t.drains)
  {
    hide ActionsOf, ResultNow;
  }

  lemma AgreesStep(s: State, h: History, e: Event)
    requires Agrees(s, h) && Enabled(s, e)
    ensures Agrees(Apply(s, e), Extend(h, e))
  {
    ActionsGrow(h, e);
    ActionsSent(s, h, e);
    DrainsKnown(s, h, e);
    hide ActionsOf, ActionsAdded, ResultNow, Disarm;
  }

  lemma {:induction false} RunAgrees(events: seq<Event>)
    requires Feasible(events)
    ensures Agrees(After(events), HistoryOf(events))
  {
    if events != [] {
      var n := |events| - 1;
      RunAgrees(events[..n]);
      AgreesStep(After(events[..n]), HistoryOf(events[..n]), events[n]);
      HistoryGrows(events[..n], events[n]);
      assert events[..n] + [events[n]] == events;
      hide Agrees, Extend, HistoryOf, Apply;
    }
  }

  // Over every order of events: SIGTERM is sent once if the deadline fired, SIGKILL at
  // most once and only after it, and the promise resolves once, with the result of the
  // first event that finishes the run - last of all, unless that event was the refusal of
  // SIGTERM: then SIGKILL may still follow.
  lemma SettlesOnce(events: seq<Event>)
    requires Feasible(events)
    ensures var kill := if ForceKill(events) then [Kill(SIGKILL)] else [];
            var resolve := match FirstFinish(events) case None => [] case Some(i) => [Resolve(ResultAt(events, i))];
            After(events).actions
            == (if Deadline(events) then [Kill(SIGTERM)] else [])
             + (if Refused(events) then resolve + kill else kill + resolve)
    ensures ForceKill(events) ==> Deadline(events)
    ensures Refused(events) ==> FirstFinish(events).Some?
    ensures After(events).settled <==> FirstFinish(events).Some?
  {
    RunAgrees(events);
    hide After, FirstFinish, AllText, Exits, ResultAt, Deadline, Refused, ForceKill;
  }

  // A kill is sent although the promise has resolved.
  ghost predicate KillsAfterwards(actions: seq<Action>) {
    exists i, j :: 0 <= i < j < |actions| && actions[i].Resolve? && actions[j].Kill?
  }

  // That happens exactly when SIGTERM was refused and the kill timer fires all the same.
  lemma KillsAfterwardsExactly(events: seq<Event>)
    requires Feasible(events)
    ensures KillsAfterwards(After(events).actions) <==> Refused(events) && ForceKill(events)
  {
    SettlesOnce(events);
    var actions := After(events).actions;
    hide After, FirstFinish, ResultAt, Deadline, Refused, ForceKill;
    if Refused(events) && ForceKill(events) {
      assert actions[1].Resolve? && actions[2].Kill?;
    }
  }

  // And it can happen: the timer is armed after the refusal has settled the run.
  lemma RefusedDeadlineKillsAfterwards()
    ensures var events := [DeadlineFires(true), ForceKillFires(false)];
            && Feasible(events)
            && After(events).actions
               == [Kill(SIGTERM), Resolve(SmokeResult(ExitInfo(None, None), "", true, true)), Kill(SIGKILL)]
  {
    var one, two := [DeadlineFires(true)], [DeadlineFires(true), ForceKillFires(false)];
    assert one[..0] == [] && two[..1] == one;
    assert Feasible([]) && After([]) == STARTED;
    assert Feasible(one);
    assert After(one) == Apply(STARTED, DeadlineFires(true));
    assert Feasible(two);
  }

  lemma {:induction false} FeasiblePrefix(events: seq<Event>, n: nat)
    requires Feasible(events) && n <= |events|
    ensures Feasible(events[..n])
    ensures n < |events| ==> Enabled(After(events[..n]), events[n])
    decreases |events|
  {
    if n < |events| - 1 {
      assert events[..|events| - 1][..n] == events[..n];
      FeasiblePrefix(events[..|events| - 1], n);
    } else {
      assert events[..|events|] == events;
    }
  }

  lemma SettledDisarms(s: State, events: seq<Event>, e: Event)
    requires Agrees(s, HistoryOf(events)) && FirstFinish(events).Some? && Enabled(s, e)
    ensures !e.DeadlineFires? && (e.ForceKillFires? ==> Refused(events))
  {
    hide FirstFinish, AllText, Exits, ResultAt, Deadline, Refused, ForceKill;
  }

  lemma FinishedInPrefix(events: seq<Event>, i: nat, k: nat)
    requires i < k <= |events| && Finishes(events[i])
    ensures FirstFinish(events[..k]).Some?
    ensures Refused(events[..k]) ==> Refused(events)
  {
    hide FirstFinish;
    assert events[..k][i] == events[i];
    assert forall j :: 0 <= j < k ==> events[..k][j] == events[j];
  }

  lemma NoTimerOnceSettled(events: seq<Event>, i: nat, k: nat)
    requires Feasible(events) && FirstFinish(events) == Some(i) && i < k < |events|
    ensures !events[k].DeadlineFires? && (events[k].ForceKillFires? ==> Refused(events))
  {
    hide *;
    FeasiblePrefix(events, k);
    RunAgrees(events[..k]);
    FinishedInPrefix(events, i, k);
    SettledDisarms(After(events[..k]), events[..k], events[k]);
  }

  // The deadline only ever fires before the promise resolves, or in resolving it, so the
  // result says `timedOut` exactly when the deadline fired at all; and the kill timer only
  // fires afterwards if SIGTERM was refused.
  lemma TimedOutMeansDeadline(events: seq<Event>, i: nat)
    requires Feasible(events) && FirstFinish(events) == Some(i)
    ensures forall k :: i < k < |events| ==> !events[k].DeadlineFires?
    ensures forall k :: i < k < |events| && events[k].ForceKillFires? ==> Refused(events)
    ensures ResultAt(events, i).timedOut <==> Deadline(events)
  {
    forall k | i < k < |events|
      ensures !events[k].DeadlineFires? && (events[k].ForceKillFires? ==> Refused(events))
    {
      NoTimerOnceSettled(events, i, k);
    }
    DeadlineBy(events, i);
    hide FirstFinish, Feasible, Exits, AllText, Refused, Deadline;
  }

  lemma DeadlineBy(events: seq<Event>, i: nat)
    requires i < |events| && forall k :: i < k < |events| ==> !events[k].DeadlineFires?
    ensures Deadline(events) <==> Deadline(events[..i]) || events[i].DeadlineFires?
  {
    assert forall k :: 0 <= k < i ==> events[..i][k] == events[k];
  }

  lemma OneMore(events: seq<Event>, e: Event)
    requires Feasible(events) && Enabled(After(events), e)
    ensures Feasible(events + [e]) && After(events + [e]) == Apply(After(events), e)
  {
    assert (events + [e])[..|events|] == events;
  }

  lemma DrainIsArmed(s: State, events: seq<Event>, t: nat)
    requires Agrees(s, HistoryOf(events)) && FirstFinish(events) == None && t < |Exits(events)|
    ensures t in s.drains && s.drains[t] == Exits(events)[t] && !s.settled
    ensures s.stderr == AllText(events) && s.timedOut == Deadline(events)
  {
    hide FirstFinish, AllText, Exits, Deadline, Refused, ForceKill, ActionsOf;
  }

  // A child that has exited settles the run even if its pipes are held open: as long as
  // nothing else has, the drain of every exit can fire, and then it resolves the promise
  // with that exit and all the text there was.
  lemma ExitSettles(events: seq<Event>, t: nat)
    requires Feasible(events) && FirstFinish(events) == None && t < |Exits(events)|
    ensures Feasible(events + [DrainFires(t)])
    ensures After(events + [DrainFires(t)]).settled
    ensures After(events + [DrainFires(t)]).actions
         == After(events).actions + [Resolve(SmokeResult(Exits(events)[t], AllText(events), false, Deadline(events)))]
  {
    RunAgrees(events);
    DrainIsArmed(After(events), events, t);
    OneMore(events, DrainFires(t));
    hide FirstFinish, AllText, Exits, Deadline, Refused, ForceKill, After, Feasible, Agrees, HistoryOf;
  }
}
