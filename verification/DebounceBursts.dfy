/**
 * What debouncing is for (src/obsidian_mcp/storage/watcher.py:50-68): of a burst of events on one path only
 * the last one is delivered, unless a timer of the path begins to run in between.
 */
module DebounceBursts {
  import opened Debounce

  /** Some timer of the path begins, or takes the pending one out of the table, in these steps. */
  ghost predicate Disturbs(steps: seq<Step>, path: string, timers: seq<Timer>) {
    exists step :: step in steps && DisturbsAt(step, path, timers)
  }

  predicate DisturbsAt(step: Step, path: string, timers: seq<Timer>) {
    (step.Fire? || step.Pop?) && step.id < |timers| && timers[step.id].path == path
  }

  /**
   * Of the timers of the path from number `first` on none has begun; and unless the watcher has been
   * stopped, one that is still armed is the last one and the pending one.
   */
  ghost predicate Gathering(s: State, path: string, first: nat) {
    && (forall i :: first <= i < |s.timers| && s.timers[i].path == path ==> s.timers[i].status in {Armed, Cancelled})
    && (s.stopped ||
        forall i :: first <= i < |s.timers| && s.timers[i].path == path && s.timers[i].status == Armed ==>
          && path in s.pending && s.pending[path] == i
          && forall j :: i < j < |s.timers| ==> s.timers[j].path != path)
  }

  lemma StepKeepsGathering(s: State, step: Step, path: string, first: nat)
    requires SoundPending(s) && s.debounced && Gathering(s, path, first) && Enabled(s, step)
    requires !DisturbsAt(step, path, s.timers)
    ensures Gathering(Apply(s, step), path, first)
  {
    if step.Event? {
      EventKeepsGathering(s, step.path, path, first);
    }
  }

  lemma EventKeepsGathering(s: State, event: string, path: string, first: nat)
    requires SoundPending(s) && s.debounced && Gathering(s, path, first)
    ensures Gathering(Apply(s, Event(event)), path, first)
  {
    var t := Apply(s, Event(event));
    assert forall i :: 0 <= i < |s.timers| ==>
        t.timers[i] == if event in s.pending && s.pending[event] == i && s.timers[i].status == Armed
                       then s.timers[i].(status := Cancelled) else s.timers[i];
  }

  lemma {:induction false} TimersStay(s: State, steps: seq<Step>)
    requires SoundPending(s) && Possible(s, steps)
    ensures |s.timers| <= |After(s, steps).timers| && After(s, steps).debounced == s.debounced
    ensures forall i :: 0 <= i < |s.timers| ==> After(s, steps).timers[i].path == s.timers[i].path
    decreases |steps|
  {
    hide Apply;
    if steps != [] {
      StepKeepsPending(s, steps[0]);
      ModeStays(s, steps[0]);
      TimersStay(Apply(s, steps[0]), steps[1..]);
    }
  }

  lemma ModeStays(s: State, step: Step)
    requires Enabled(s, step)
    ensures Apply(s, step).debounced == s.debounced
    ensures step.SetStop? || Apply(s, step).stopped == s.stopped
    ensures s.stopped ==> Apply(s, step).stopped
  {
  }

  lemma {:induction false} RunKeepsGathering(s: State, steps: seq<Step>, path: string, first: nat)
    requires Inv(s) && s.debounced && Gathering(s, path, first) && Possible(s, steps)
    requires !Disturbs(steps, path, After(s, steps).timers)
    ensures Gathering(After(s, steps), path, first)
    decreases |steps|
  {
    hide Apply, Gathering, Inv, SoundPending;
    if steps != [] {
      var t := Apply(s, steps[0]);
      SoundParts(s);
      TimersStay(s, steps);
      assert steps[0] in steps && forall step :: step in steps[1..] ==> step in steps;
      assert !DisturbsAt(steps[0], path, After(s, steps).timers);
      StepKeepsGathering(s, steps[0], path, first);
      ModeStays(s, steps[0]);
      StepKeepsInv(s, steps[0]);
      RunKeepsGathering(t, steps[1..], path, first);
    }
  }

  lemma SoundParts(s: State)
    requires Inv(s)
    ensures SoundPending(s) && SoundDeliveries(s)
  {
  }

  /** What has been cancelled stays so. */
  lemma {:induction false} CancelledIsFinal(s: State, steps: seq<Step>, id: nat)
    requires Possible(s, steps) && Has(s, id, Cancelled)
    ensures Has(After(s, steps), id, Cancelled)
    decreases |steps|
  {
    if steps != [] {
      CancelledIsFinal(Apply(s, steps[0]), steps[1..], id);
    }
  }

  /**
   * Of the events of a burst on one path only the last one can ever be delivered, whatever happens before
   * and after the burst: no earlier one is, if between them no timer of the path begins to run and none
   * that began before takes a newer one out of the table.
   */
  lemma BurstIsDeliveredOnce(
      before: seq<Step>, burst: seq<Step>, more: seq<Step>, path: string, i: nat, j: nat)
    requires Possible(Initial(true), before)
    requires var s := After(Initial(true), before);
             && Possible(s, burst) && Possible(After(s, burst), more)
             && !Disturbs(burst, path, After(s, burst).timers)
             && |s.timers| <= i < j < |After(s, burst).timers|
             && After(s, burst).timers[i].path == path == After(s, burst).timers[j].path
    ensures i !in After(After(After(Initial(true), before), burst), more).deliveries
  {
    hide Apply, Gathering, Possible, After, Superseded, SoundPending, SoundCancels;
    RunKeepsInv(Initial(true), before);
    var s := After(Initial(true), before);
    NothingGathered(s, path);
    InitialRuns(before);
    RunKeepsGathering(s, burst, path, |s.timers|);
    RunKeepsInv(s, burst);
    SoundParts(s);
    TimersStay(s, burst);
    var t := After(s, burst);
    RunKeepsInv(t, more);
    EarlierIsNotLive(t, path, |s.timers|, i, j);
    if Has(t, i, Cancelled) {
      CancelledIsFinal(t, more, i);
    } else {
      StopIsFinal(t, more);
    }
  }

  lemma InitialRuns(before: seq<Step>)
    requires Possible(Initial(true), before)
    ensures After(Initial(true), before).debounced && Inv(Initial(true))
  {
    TimersStay(Initial(true), before);
  }

  lemma NothingGathered(s: State, path: string)
    ensures Gathering(s, path, |s.timers|)
  {
  }

  lemma EarlierIsNotLive(s: State, path: string, first: nat, i: nat, j: nat)
    requires Gathering(s, path, first) && first <= i < j < |s.timers| && SoundDeliveries(s)
    requires s.timers[i].path == path == s.timers[j].path
    ensures Has(s, i, Cancelled) || (s.stopped && i !in s.deliveries)
  {
  }

  // ---------------------------------------------------------------------------------------
  // Exactly when the earlier of two events is dropped

  /** Where the timer is while the watcher waits for the next event: untouched, or out of its reach. */
  ghost predicate Waits(s: State, path: string, i: nat, disturbed: bool) {
    && !s.stopped && s.debounced && i < |s.timers| && s.timers[i].path == path
    && if disturbed then
         && LiveOrDelivered(s.timers[i].status)
         && (s.timers[i].status != Armed || path !in s.pending)
       else s.timers[i].status == Armed && path in s.pending && s.pending[path] == i
  }

  lemma StepKeepsWaiting(s: State, step: Step, path: string, i: nat, disturbed: bool)
    requires Inv(s) && Waits(s, path, i, disturbed) && Enabled(s, step) && !step.SetStop? && step != Event(path)
    ensures Waits(Apply(s, step), path, i,
                  disturbed || step == Fire(i) || (step.Pop? && s.timers[step.id].path == path))
  {
  }

  /** Before the next event on the path: the timer has begun, or one that began earlier has hidden it. */
  ghost predicate Escapes(steps: seq<Step>, path: string, i: nat, timers: seq<Timer>) {
    exists step :: step in steps && EscapesAt(step, path, i, timers)
  }

  predicate EscapesAt(step: Step, path: string, i: nat, timers: seq<Timer>) {
    step == Fire(i) || (step.Pop? && step.id < |timers| && timers[step.id].path == path)
  }

  lemma {:induction false} RunKeepsWaiting(s: State, steps: seq<Step>, path: string, i: nat, disturbed: bool)
    requires Inv(s) && Waits(s, path, i, disturbed) && Possible(s, steps)
    requires forall step :: step in steps ==> !step.SetStop? && step != Event(path)
    ensures Waits(After(s, steps), path, i, disturbed || Escapes(steps, path, i, After(s, steps).timers))
    decreases |steps|
  {
    hide Apply, Waits, Inv, SoundPending;
    if steps != [] {
      var step, t := steps[0], Apply(s, steps[0]);
      assert step in steps && forall later :: later in steps <==> later == step || later in steps[1..];
      SoundParts(s);
      StepKeepsWaiting(s, step, path, i, disturbed);
      StepKeepsInv(s, step);
      TimersStay(s, steps);
      PopIsOfTimer(s, step);
      var now := disturbed || step == Fire(i) || (step.Pop? && s.timers[step.id].path == path);
      RunKeepsWaiting(t, steps[1..], path, i, now);
      assert now || Escapes(steps[1..], path, i, After(s, steps).timers)
          <==> disturbed || Escapes(steps, path, i, After(s, steps).timers);
    }
  }

  lemma PopIsOfTimer(s: State, step: Step)
    requires Enabled(s, step)
    ensures step.Pop? ==> step.id < |s.timers|
  {
  }

  /** A live timer of a running watcher can still be delivered. */
  lemma {:induction false} LiveCanDeliver(s: State, id: nat) returns (more: seq<Step>)
    requires SoundDeliveries(s) && !s.stopped && id < |s.timers| && LiveOrDelivered(s.timers[id].status)
    ensures Possible(s, more) && id in After(s, more).deliveries
    decreases match s.timers[id].status case Armed => 3 case Fired => 2 case Unlocked => 1 case _ => 0
  {
    more := [];
    if s.timers[id].status != Delivered {
      var next := if Has(s, id, Armed) then Fire(id) else if Has(s, id, Fired) then Pop(id) else Check(id);
      StepKeepsDeliveries(s, next);
      var rest := LiveCanDeliver(Apply(s, next), id);
      more := [next] + rest;
      assert more[1..] == rest;
    }
  }

  /** After the second event the first timer is cancelled, or lives on if it had escaped. */
  lemma SecondEvent(s: State, path: string, i: nat, escaped: bool)
    requires Inv(s) && Waits(s, path, i, escaped)
    ensures var t := Apply(s, Event(path));
            !t.stopped && i < |t.timers|
            && if escaped then LiveOrDelivered(t.timers[i].status) else t.timers[i].status == Cancelled
  {
  }

  /**
   * Two consecutive events on a path: the first can still be delivered if and only if its timer has begun
   * before the second comes, or one that began earlier has taken it out of the table.
   */
  lemma FirstOfTwoIsDropped(before: seq<Step>, between: seq<Step>, path: string)
    requires Possible(Initial(true), before) && !After(Initial(true), before).stopped
    requires forall step :: step in between ==> !step.SetStop? && step != Event(path)
    requires Possible(Apply(After(Initial(true), before), Event(path)), between)
    ensures var s := After(Initial(true), before);
            var waiting := After(Apply(s, Event(path)), between);
            var t := Apply(waiting, Event(path));
            (exists more :: Possible(t, more) && |s.timers| in After(t, more).deliveries)
            <==> Escapes(between, path, |s.timers|, waiting.timers)
  {
    hide Apply, Possible, After, Superseded, SoundPending, SoundCancels, Escapes, Waits;
    var s := After(Initial(true), before);
    var i := |s.timers|;
    InitialRuns(before);
    RunKeepsInv(Initial(true), before);
    StepKeepsInv(s, Event(path));
    FirstEventWaits(s, path);
    RunKeepsInv(Apply(s, Event(path)), between);
    RunKeepsWaiting(Apply(s, Event(path)), between, path, i, false);
    var waiting := After(Apply(s, Event(path)), between);
    SecondEvent(waiting, path, i, Escapes(between, path, i, waiting.timers));
    var t := Apply(waiting, Event(path));
    StepKeepsInv(waiting, Event(path));
    if Escapes(between, path, i, waiting.timers) {
      var more := LiveCanDeliver(t, i);
    } else {
      forall more | Possible(t, more) ensures i !in After(t, more).deliveries {
        CancelledIsFinal(t, more, i);
        RunKeepsInv(t, more);
      }
    }
  }

  lemma FirstEventWaits(s: State, path: string)
    requires s.debounced && !s.stopped
    ensures Waits(Apply(s, Event(path)), path, |s.timers|, false)
  {
  }

  /** A stale timer: three events, and the second and the third are both delivered. */
  lemma StaleTimerLetsTwoThrough()
    ensures var steps := [Event("a.md"), Fire(0), Event("a.md"), Pop(0), Event("a.md"),
                          Fire(1), Pop(1), Check(1), Fire(2), Pop(2), Check(2)];
            Possible(Initial(true), steps) && After(Initial(true), steps).deliveries == [1, 2]
  {
    var steps := [Event("a.md"), Fire(0), Event("a.md"), Pop(0), Event("a.md"),
                  Fire(1), Pop(1), Check(1), Fire(2), Pop(2), Check(2)];
    hide Possible, After;
    var first := [Event("a.md"), Fire(0), Event("a.md"), Pop(0), Event("a.md")];
    var rest := [Fire(1), Pop(1), Check(1), Fire(2), Pop(2), Check(2)];
    assert steps == first + rest;
    UpToThirdEvent();
    ThenBoth();
    JoinRuns(Initial(true), first, rest);
  }

  const MIDWAY := State(true, map["a.md" := 2],
    [Timer("a.md", Unlocked), Timer("a.md", Armed), Timer("a.md", Armed)], [], false, {})

  lemma UpToThirdEvent()
    ensures var steps := [Event("a.md"), Fire(0), Event("a.md"), Pop(0), Event("a.md")];
            Possible(Initial(true), steps) && After(Initial(true), steps) == MIDWAY
  {
    var a, b, c, d, e := Event("a.md"), Fire(0), Event("a.md"), Pop(0), Event("a.md");
    assert [a, b, c, d, e][1..] == [b, c, d, e] && [b, c, d, e][1..] == [c, d, e] && [c, d, e][1..] == [d, e];
    assert [d, e][1..] == [e] && [e][1..] == [];
  }

  lemma ThenBoth()
    ensures var steps := [Fire(1), Pop(1), Check(1), Fire(2), Pop(2), Check(2)];
            Possible(MIDWAY, steps) && After(MIDWAY, steps).deliveries == [1, 2]
  {
    var a, b, c, d, e, f := Fire(1), Pop(1), Check(1), Fire(2), Pop(2), Check(2);
    assert [a, b, c, d, e, f][1..] == [b, c, d, e, f] && [b, c, d, e, f][1..] == [c, d, e, f];
    assert [c, d, e, f][1..] == [d, e, f] && [d, e, f][1..] == [e, f] && [e, f][1..] == [f] && [f][1..] == [];
  }

  lemma {:induction false} JoinRuns(s: State, steps: seq<Step>, more: seq<Step>)
    requires Possible(s, steps) && Possible(After(s, steps), more)
    ensures Possible(s, steps + more) && After(s, steps + more) == After(After(s, steps), more)
    decreases |steps|
  {
    hide Apply;
    if steps == [] {
      assert steps + more == more;
    } else {
      assert (steps + more)[1..] == steps[1..] + more && (steps + more)[0] == steps[0];
      JoinRuns(Apply(s, steps[0]), steps[1..], more);
    }
  }

  // ---------------------------------------------------------------------------------------
  // Without debouncing

  /** With a debounce of zero every event is delivered at once, in order. */
  lemma {:induction false} UndebouncedDeliversAll(steps: seq<Step>)
    requires Possible(Initial(false), steps)
    ensures var s := After(Initial(false), steps);
            |s.deliveries| == |s.timers| && forall k :: 0 <= k < |s.deliveries| ==> s.deliveries[k] == k
  {
    EachAtOnce(Initial(false), steps);
  }

  lemma {:induction false} EachAtOnce(s: State, steps: seq<Step>)
    requires Possible(s, steps) && !s.debounced && |s.deliveries| == |s.timers|
    requires forall k :: 0 <= k < |s.timers| ==> s.deliveries[k] == k && s.timers[k].status == Delivered
    ensures var t := After(s, steps);
            |t.deliveries| == |t.timers| && forall k :: 0 <= k < |t.deliveries| ==> t.deliveries[k] == k
    decreases |steps|
  {
    if steps != [] {
      EachAtOnce(Apply(s, steps[0]), steps[1..]);
    }
  }
}
