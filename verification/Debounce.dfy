/**
 * The debounce timers of VaultWatcher (src/obsidian_mcp/storage/watcher.py): every event on a path
 * replaces the pending timer of that path, timers run on their own threads, and `stop` may come at any
 * moment. A timer whose function has begun can no longer be cancelled, so its `deliver` may remove a
 * newer timer of the same path from the pending table.
 */
module Debounce {

  datatype Status = Armed | Fired | Unlocked | Delivered | Dropped | Cancelled

  /** The timer of event number i is number i. */
  datatype Timer = Timer(path: string, status: Status)

  datatype State = State(
    debounced: bool,
    pending: map<string, nat>,
    timers: seq<Timer>,
    deliveries: seq<nat>,
    stopped: bool,
    collected: set<nat>)

  datatype Step =
    | Event(path: string)
    | Fire(id: nat)
    | Pop(id: nat)
    | Check(id: nat)
    | SetStop
    | Collect
    | CancelOne(id: nat)

  function Initial(debounced: bool): State {
    State(debounced, map[], [], [], false, {})
  }

  predicate Has(s: State, id: nat, status: Status) {
    id < |s.timers| && s.timers[id].status == status
  }

  function Mark(s: State, id: nat, status: Status): State
    requires id < |s.timers|
  {
    s.(timers := s.timers[id := s.timers[id].(status := status)])
  }

  /** `Timer.cancel`: without effect once the function has begun. */
  function Cancel(s: State, id: nat): State {
    if Has(s, id, Armed) then Mark(s, id, Cancelled) else s
  }

  predicate Enabled(s: State, step: Step) {
    match step
    case Event(_) => true
    case Fire(id) => Has(s, id, Armed)
    case Pop(id) => Has(s, id, Fired)
    case Check(id) => Has(s, id, Unlocked)
    case SetStop => true
    case Collect => s.stopped
    case CancelOne(id) => id in s.collected
  }

  function Apply(s: State, step: Step): State
    requires Enabled(s, step)
  {
    match step
    case Event(path) =>
      var id := |s.timers|;
      if !s.debounced then s.(timers := s.timers + [Timer(path, Delivered)], deliveries := s.deliveries + [id])
      else
        var c := if path in s.pending then Cancel(s, s.pending[path]) else s;
        c.(timers := c.timers + [Timer(path, Armed)], pending := c.pending[path := id])
    case Fire(id) => Mark(s, id, Fired)
    case Pop(id) => Mark(s, id, Unlocked).(pending := s.pending - {s.timers[id].path})
    case Check(id) =>
      if s.stopped then Mark(s, id, Dropped)
      else Mark(s, id, Delivered).(deliveries := s.deliveries + [id])
    case SetStop => s.(stopped := true)
    case Collect => s.(collected := s.collected + s.pending.Values, pending := map[])
    case CancelOne(id) => Cancel(s, id).(collected := s.collected - {id})
  }

  ghost predicate Possible(s: State, steps: seq<Step>)
    decreases |steps|
  {
    steps == [] || (Enabled(s, steps[0]) && Possible(Apply(s, steps[0]), steps[1..]))
  }

  ghost function After(s: State, steps: seq<Step>): State
    requires Possible(s, steps)
    decreases |steps|
  {
    if steps == [] then s else After(Apply(s, steps[0]), steps[1..])
  }

  // ---------------------------------------------------------------------------------------
  // What every step keeps

  /** Unless the watcher is stopping, a timer is only cancelled in favour of a later one on its path. */
  ghost predicate Superseded(s: State, i: nat)
    requires i < |s.timers|
  {
    exists j :: i < j < |s.timers| && s.timers[j].path == s.timers[i].path
  }

  ghost predicate SoundPending(s: State) {
    forall p :: p in s.pending ==> s.pending[p] < |s.timers| && s.timers[s.pending[p]].path == p
  }

  ghost predicate SoundCancels(s: State) {
    && s.collected == {}
    && forall i :: 0 <= i < |s.timers| ==>
         s.timers[i].status != Dropped && (s.timers[i].status == Cancelled ==> Superseded(s, i))
  }

  /** The log of deliveries names exactly the delivered timers, each once. */
  ghost predicate SoundDeliveries(s: State) {
    && (forall k :: 0 <= k < |s.deliveries| ==> Has(s, s.deliveries[k], Delivered))
    && (forall i :: 0 <= i < |s.timers| && s.timers[i].status == Delivered ==> i in s.deliveries)
    && (forall k, l :: 0 <= k < l < |s.deliveries| ==> s.deliveries[k] != s.deliveries[l])
  }

  ghost predicate Inv(s: State) {
    SoundPending(s) && SoundDeliveries(s) && (!s.stopped ==> SoundCancels(s))
  }

  lemma StepKeepsPending(s: State, step: Step)
    requires SoundPending(s) && Enabled(s, step)
    ensures SoundPending(Apply(s, step))
    ensures |Apply(s, step).timers| >= |s.timers|
    ensures forall i :: 0 <= i < |s.timers| ==> Apply(s, step).timers[i].path == s.timers[i].path
  {
  }

  lemma EventKeepsDeliveries(s: State, path: string)
    requires SoundDeliveries(s)
    ensures SoundDeliveries(Apply(s, Event(path)))
  {
  }

  lemma StepKeepsDeliveries(s: State, step: Step)
    requires SoundDeliveries(s) && Enabled(s, step)
    ensures SoundDeliveries(Apply(s, step))
  {
    if step.Event? {
      EventKeepsDeliveries(s, step.path);
    }
  }

  lemma StepKeepsCancels(s: State, step: Step)
    requires SoundPending(s) && SoundCancels(s) && !s.stopped && Enabled(s, step) && !step.SetStop?
    ensures SoundCancels(Apply(s, step))
  {
    var t := Apply(s, step);
    StepKeepsPending(s, step);
    forall i | 0 <= i < |t.timers| && t.timers[i].status == Cancelled ensures Superseded(t, i) {
      if s.timers[i].status == Cancelled {
        var j :| i < j < |s.timers| && s.timers[j].path == s.timers[i].path;
        assert t.timers[j].path == t.timers[i].path;
      } else {
        assert t.timers[|s.timers|].path == t.timers[i].path;
      }
    }
  }

  lemma StepKeepsInv(s: State, step: Step)
    requires Inv(s) && Enabled(s, step)
    ensures Inv(Apply(s, step))
  {
    StepKeepsPending(s, step);
    StepKeepsDeliveries(s, step);
    if !s.stopped && !step.SetStop? {
      StepKeepsCancels(s, step);
    }
  }

  lemma {:induction false} RunKeepsInv(s: State, steps: seq<Step>)
    requires Inv(s) && Possible(s, steps)
    ensures Inv(After(s, steps))
    decreases |steps|
  {
    if steps != [] {
      StepKeepsInv(s, steps[0]);
      RunKeepsInv(Apply(s, steps[0]), steps[1..]);
    }
  }

  // ---------------------------------------------------------------------------------------
  // Main results, for every interleaving

  /** The timer will still deliver, or its delivery has begun. */
  predicate LiveOrDelivered(status: Status) {
    status in {Armed, Fired, Unlocked, Delivered}
  }

  /** A timer armed at this event or later, on the same path, stands for the event. */
  ghost predicate CoveredBy(s: State, event: nat, id: nat)
    requires event < |s.timers|
  {
    event <= id < |s.timers| && s.timers[id].path == s.timers[event].path
  }

  lemma {:induction false} SomeoneCovers(s: State, event: nat) returns (id: nat)
    requires Inv(s) && !s.stopped && event < |s.timers|
    ensures CoveredBy(s, event, id) && LiveOrDelivered(s.timers[id].status)
    decreases |s.timers| - event
  {
    id := event;
    if s.timers[event].status == Cancelled {
      var later :| event < later < |s.timers| && s.timers[later].path == s.timers[event].path;
      id := SomeoneCovers(s, later);
    }
  }

  /**
   * No event is lost before the watcher stops: each one is covered by a timer of its path, armed at that
   * event or later, that is still live or has begun to deliver. Once nothing is live any more, each
   * event has been followed by a delivery.
   */
  lemma NoEventIsLost(debounced: bool, steps: seq<Step>, event: nat)
    requires Possible(Initial(debounced), steps)
    requires event < |After(Initial(debounced), steps).timers| && !After(Initial(debounced), steps).stopped
    ensures var s := After(Initial(debounced), steps);
            && (exists id: nat :: CoveredBy(s, event, id) && LiveOrDelivered(s.timers[id].status))
            && ((forall id :: 0 <= id < |s.timers| ==> s.timers[id].status in {Delivered, Cancelled}) ==>
                  exists id: nat :: CoveredBy(s, event, id) && id in s.deliveries)
  {
    var s := After(Initial(debounced), steps);
    RunKeepsInv(Initial(debounced), steps);
    var id := SomeoneCovers(s, event);
    assert CoveredBy(s, event, id);
  }

  lemma {:induction false} DistinctBelow(ids: seq<nat>, bound: nat)
    requires forall k :: 0 <= k < |ids| ==> ids[k] < bound
    requires forall k, l :: 0 <= k < l < |ids| ==> ids[k] != ids[l]
    ensures |ids| <= bound
    decreases bound
  {
    if ids == [] {
    } else if exists k :: 0 <= k < |ids| && ids[k] == bound - 1 {
      var k :| 0 <= k < |ids| && ids[k] == bound - 1;
      DistinctBelow(ids[..k] + ids[k + 1..], bound - 1);
    } else {
      assert ids[0] < bound;
      DistinctBelow(ids, bound - 1);
    }
  }

  /** Debouncing never multiplies: there are at most as many deliveries as events, one per timer. */
  lemma DeliveriesNeverExceedEvents(debounced: bool, steps: seq<Step>)
    requires Possible(Initial(debounced), steps)
    ensures |After(Initial(debounced), steps).deliveries| <= |After(Initial(debounced), steps).timers|
  {
    RunKeepsInv(Initial(debounced), steps);
    var s := After(Initial(debounced), steps);
    DistinctBelow(s.deliveries, |s.timers|);
  }

  /**
   * After `stop` is set nothing is delivered, exactly unless debouncing is off and an event still comes:
   * the direct path does not look at the stop flag.
   */
  lemma {:induction false} StopIsFinal(s: State, steps: seq<Step>)
    requires s.stopped && Possible(s, steps)
    ensures s.deliveries <= After(s, steps).deliveries
    ensures After(s, steps).deliveries == s.deliveries <==> s.debounced || forall step :: step in steps ==> !step.Event?
    decreases |steps|
  {
    if steps != [] {
      var t := Apply(s, steps[0]);
      StopIsFinal(t, steps[1..]);
      assert t.debounced == s.debounced;
      assert steps[0] in steps && forall step :: step in steps <==> step == steps[0] || step in steps[1..];
    }
  }

  // ---------------------------------------------------------------------------------------
  // The critical sections, on the fields of the watcher

  class VaultWatcher {
    const debounced: bool
    var pending: map<string, nat>
    var timers: seq<Timer>
    var deliveries: seq<nat>
    var stopped: bool
    var collected: set<nat>

    ghost function Now(): State
      reads this
    {
      State(debounced, pending, timers, deliveries, stopped, collected)
    }

    constructor (debounced: bool)
      ensures Now() == Initial(debounced)
    {
      this.debounced := debounced;
      pending, timers, deliveries, stopped, collected := map[], [], [], false, {};
    }

    method CancelTimer(id: nat)
      modifies this`timers
      ensures Now() == Cancel(old(Now()), id)
    {
      if id < |timers| && timers[id].status == Armed {
        timers := timers[id := timers[id].(status := Cancelled)];
      }
    }

    /** `debounced(path)`. */
    method OnEvent(path: string)
      modifies this`pending, this`timers, this`deliveries
      ensures Now() == Apply(old(Now()), Event(path))
    {
      var id := |timers|;
      if !debounced {
        timers := timers + [Timer(path, Delivered)];
        deliveries := deliveries + [id];
        return;
      }
      if path in pending {
        var previous := pending[path];
        pending := pending - {path};
        CancelTimer(previous);
      }
      timers := timers + [Timer(path, Armed)];
      pending := pending[path := id];
    }

    /** `deliver`, once its timer has fired: the locked part, then the check and the callback. */
    method Deliver(id: nat)
      requires Has(Now(), id, Fired)
      modifies this`pending, this`timers, this`deliveries
      ensures Now() == Apply(Apply(old(Now()), Pop(id)), Check(id))
    {
      pending := pending - {timers[id].path};
      timers := timers[id := timers[id].(status := Unlocked)];
      if stopped {
        timers := timers[id := timers[id].(status := Dropped)];
      } else {
        timers := timers[id := timers[id].(status := Delivered)];
        deliveries := deliveries + [id];
      }
    }

    /** `stop`: set the flag, take the pending timers under the lock, then cancel them one by one. */
    method Stop()
      requires Inv(Now()) && collected == {}
      modifies this`pending, this`timers, this`stopped, this`collected
      ensures stopped && pending == map[] && collected == {} && deliveries == old(deliveries)
      ensures timers == CancelAll(old(timers), old(pending).Values)
      ensures forall path :: path in old(pending) ==>
                old(pending)[path] < |timers| && timers[old(pending)[path]].status != Armed
      ensures exists steps :: Possible(old(Now()), steps) && After(old(Now()), steps) == Now()
    {
      hide Possible, After, CancelAll, Cancel, SoundDeliveries, SoundCancels;
      ghost var start := Now();
      ghost var steps := StopBegins(start);
      CancelNone(timers);
      stopped := true;
      collected := pending.Values;
      pending := map[];
      assert old(pending).Values - collected == {};
      while collected != {}
        invariant stopped && pending == map[] && deliveries == old(deliveries)
        invariant collected <= old(pending).Values
        invariant timers == CancelAll(old(timers), old(pending).Values - collected)
        invariant Possible(start, steps) && After(start, steps) == Now()
        decreases collected
      {
        var id :| id in collected;
        ghost var done := old(pending).Values - collected;
        ExtendRun(start, steps, CancelOne(id));
        steps := steps + [CancelOne(id)];
        CancelOneMore(Now(), old(timers), done, id);
        CancelTimer(id);
        collected := collected - {id};
        assert old(pending).Values - collected == done + {id};
      }
      assert old(pending).Values - collected == old(pending).Values;
      NoneIsArmed(start);
    }
  }

  lemma CancelNone(timers: seq<Timer>)
    ensures CancelAll(timers, {}) == timers
  {
  }

  lemma CancelOneMore(s: State, timers: seq<Timer>, done: set<nat>, id: nat)
    requires s.timers == CancelAll(timers, done)
    ensures Cancel(s, id) == s.(timers := CancelAll(timers, done + {id}))
  {
    assert Cancel(s, id).timers == CancelAll(timers, done + {id});
  }

  /** What was pending is armed no more. */
  lemma NoneIsArmed(s: State)
    requires SoundPending(s)
    ensures var timers := CancelAll(s.timers, s.pending.Values);
            forall path :: path in s.pending ==> s.pending[path] < |timers| && timers[s.pending[path]].status != Armed
  {
  }

  lemma StopBegins(s: State) returns (steps: seq<Step>)
    requires s.collected == {}
    ensures Possible(s, steps)
    ensures After(s, steps) == s.(stopped := true, collected := s.pending.Values, pending := map[])
  {
    steps := [SetStop, Collect];
    assert steps[1..] == [Collect] && [Collect][1..] == [];
  }

  function CancelAll(timers: seq<Timer>, ids: set<nat>): seq<Timer> {
    seq(|timers|, i requires 0 <= i < |timers| =>
      if i in ids && timers[i].status == Armed then timers[i].(status := Cancelled) else timers[i])
  }

  lemma {:induction false} ExtendRun(s: State, steps: seq<Step>, step: Step)
    requires Possible(s, steps) && Enabled(After(s, steps), step)
    ensures Possible(s, steps + [step]) && After(s, steps + [step]) == Apply(After(s, steps), step)
    decreases |steps|
  {
    if steps == [] {
      assert steps + [step] == [step] && [step][1..] == [];
    } else {
      assert (steps + [step])[1..] == steps[1..] + [step];
      ExtendRun(Apply(s, steps[0]), steps[1..], step);
    }
  }

  /** With a debounce of zero, an event after stop is delivered. */
  lemma EventAfterStopIsDelivered()
    ensures Possible(Initial(false), [SetStop, Event("a.md")])
    ensures After(Initial(false), [SetStop, Event("a.md")]).deliveries == [0]
    ensures After(Initial(false), [SetStop, Event("a.md")]).stopped
  {
    var stopped := Apply(Initial(false), SetStop);
    assert [SetStop, Event("a.md")][1..] == [Event("a.md")] && [Event("a.md")][1..] == [];
    assert Possible(stopped, [Event("a.md")]);
  }
}
