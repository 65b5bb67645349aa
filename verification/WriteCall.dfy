/**
 * The code of _write_atomic (src/obsidian_mcp/storage/filesystem.py, lines 454-530) run by one thread:
 * its system calls, in the order in which the code issues them, are steps of the protocol.
 */
module WriteCall {
  import opened Text
  import opened Revisions
  import opened AtomicWrite

  /** Which system calls raise an OSError during one call. */
  datatype Faults = Faults(
    create: bool, write: bool, recheck: bool, commit: bool, unlink: bool, verify: bool, cleanup: bool)

  predicate Publishes(current: Option<Bytes>, request: Request, faults: Faults, hash: Hash) {
    Accepts(current, request, hash) && !faults.create && !faults.write && !faults.recheck && !faults.commit
  }

  function Answer(current: Option<Bytes>, request: Request, faults: Faults, hash: Hash): Outcome {
    if !Accepts(current, request, hash) then Rejected
    else if !Publishes(current, request, faults, hash) || (current.None? && faults.unlink) || faults.verify then Raised
    else Succeeded
  }

  /** The temporary file outlives the call: the one unlink that would have removed it failed. */
  predicate Leaks(current: Option<Bytes>, request: Request, faults: Faults, hash: Hash) {
    && Accepts(current, request, hash) && !faults.create
    && (if Publishes(current, request, faults, hash) then current.None? && faults.unlink else faults.cleanup)
  }

  class Target {
    const hash: Hash
    var world: World
    ghost var start: World
    ghost var steps: seq<Step>

    ghost predicate Valid()
      reads this
    {
      SoundStore(world) && Possible(start, steps, hash) && After(start, steps, hash) == world
    }

    constructor (content: Option<Bytes>, hash: Hash)
      ensures Valid() && this.hash == hash && world == Initial(content) && start == world && steps == []
    {
      this.hash := hash;
      world := Initial(content);
      start := Initial(content);
      steps := [];
    }

    /** One system call. */
    method Do(s: Step)
      requires Valid() && Enabled(world, s) && SoundStore(Apply(world, s, hash))
      modifies this`world, this`steps
      ensures Valid() && world == Apply(old(world), s, hash) && steps == old(steps) + [s]
    {
      ExtendRun(start, steps, s, hash);
      world := Apply(world, s, hash);
      steps := steps + [s];
    }

    /** `_write_all`: a system call may write less than it was given. */
    method WriteAll(p: Pid)
      requires Valid() && Ready(world, p, Writing(0)) && world.calls[p].temp in world.store
      requires world.store[world.calls[p].temp] == [] && world.leaf != Some(world.calls[p].temp)
      modifies this`world, this`steps
      ensures Valid() && old(steps) <= steps
      ensures var a := old(world).calls[p];
              world == old(world).(
                calls := old(world).calls[p := a.(pc := Writing(|a.request.data|))],
                store := old(world).store[a.temp := a.request.data])
    {
      hide Possible, After, Content, Accepts, Holds;
      ghost var w := world;
      ghost var a := world.calls[p];
      var size := |world.calls[p].request.data|;
      var written := 0;
      assert a.(pc := Writing(0)) == a && w.calls[p := a] == w.calls && w.store[a.temp := []] == w.store;
      while written < size
        invariant written <= size && Valid() && old(steps) <= steps
        invariant world == w.(calls := w.calls[p := a.(pc := Writing(written))],
                              store := w.store[a.temp := a.request.data[..written]])
      {
        var count: nat :| 0 < count <= size - written;
        Do(WriteSome(p, count));
        written := written + count;
      }
      assert a.request.data[..written] == a.request.data;
    }

    /** Everything before the `try` block: the first revision check and the new temporary file. */
    method Begin(p: Pid, request: Request, locking: bool, faults: Faults) returns (began: bool)
      requires Valid() && p !in world.calls && (locking ==> world.lock.None?)
      modifies this`world, this`steps
      ensures Valid() && old(steps) <= steps && SameFile(old(world), world)
      ensures began == (Accepts(Content(old(world)), request, hash) && !faults.create)
      ensures p in world.calls && world.calls - {p} == old(world.calls) && world.calls[p].locking == locking
      ensures world.lock == if locking then Some(p) else old(world.lock)
      ensures !began ==>
                && world.temps == old(world.temps)
                && world.calls[p].pc == Finished(false,
                     if Accepts(Content(old(world)), request, hash) then Raised else Rejected)
      ensures began ==>
                && world.temps == old(world.temps) + {old(world.next) + 1}
                && world.calls[p] == Attempt(old(world.next), request, locking, Writing(0),
                     request.createOnly || Content(world).None?, old(world.next) + 1, false)
                && world.calls[p].temp in world.store && world.store[world.calls[p].temp] == []
                && world.leaf != Some(world.calls[p].temp)
    {
      began := Check(p, request, locking);
      if began && faults.create {
        Do(Raise(p));
        return false;
      }
      if began {
        Do(CreateTemp(p));
      }
    }

    /** The lock and the first revision check. */
    method Check(p: Pid, request: Request, locking: bool) returns (accepted: bool)
      requires Valid() && p !in world.calls && (locking ==> world.lock.None?)
      modifies this`world, this`steps
      ensures Valid() && old(steps) <= steps
      ensures accepted == Accepts(Content(old(world)), request, hash)
      ensures world == old(world).(
                calls := old(world).calls[p := Attempt(old(world).next, request, locking,
                  if accepted then OpenTemp else Finished(false, Rejected),
                  accepted && (request.createOnly || Content(old(world)).None?), 0, false)],
                lock := if locking then Some(p) else old(world).lock,
                next := old(world).next + 1)
    {
      Do(Start(p, request, locking));
      Do(ReadFirst(p));
      accepted := world.calls[p].pc.OpenTemp?;
    }

    /** From the new temporary file to the point of committing; false when a system call raised. */
    method Build(p: Pid, faults: Faults) returns (ok: bool)
      requires Valid() && Ready(world, p, Writing(0)) && world.calls[p].temp in world.store
      requires world.store[world.calls[p].temp] == [] && world.leaf != Some(world.calls[p].temp)
      requires Unchallenged(world, p, hash)
      modifies this`world, this`steps
      ensures Valid() && old(steps) <= steps && SameFile(old(world), world)
      ensures ok == !(faults.write || faults.recheck || faults.commit)
      ensures p in world.calls && world.calls - {p} == old(world.calls) - {p}
      ensures world.calls[p] == old(world.calls)[p].(pc := if ok then Committing else CleaningUp(Raised))
      ensures world.lock == old(world.lock) && world.temps == old(world.temps)
      ensures ok ==> world.calls[p].temp in world.store
                     && world.store[world.calls[p].temp] == world.calls[p].request.data
    {
      if faults.write {
        Do(Raise(p));
        return false;
      }
      WriteAll(p);
      Do(Close(p));
      ok := Recheck(p, faults);
    }

    method Recheck(p: Pid, faults: Faults) returns (ok: bool)
      requires Valid() && Ready(world, p, SecondRead) && !world.calls[p].raced
      requires Unchallenged(world, p, hash)
      modifies this`world, this`steps
      ensures Valid() && old(steps) <= steps
      ensures ok == !(faults.recheck || faults.commit)
      ensures world == At(old(world), p, if ok then Committing else CleaningUp(Raised))
    {
      if faults.recheck {
        Do(Raise(p));
        return false;
      }
      Do(ReadSecond(p));
      if faults.commit {
        Do(Raise(p));
        return false;
      }
      ok := true;
    }

    /** Link and unlink, or rename; then the final read. Nothing undoes a commit. */
    method Publish(p: Pid, faults: Faults)
      requires Valid() && Ready(world, p, Committing) && world.calls[p].temp in world.store
      requires world.store[world.calls[p].temp] == world.calls[p].request.data
      requires world.calls[p].create <==> Content(world).None?
      modifies this`world, this`steps
      ensures Valid() && old(steps) <= steps && Content(world) == Some(old(world).calls[p].request.data)
      ensures world.lock == old(world.lock) && world.calls.Keys == old(world.calls.Keys)
      ensures world.calls[p].locking == old(world.calls)[p].locking
      ensures world.calls[p].pc == Finished(true,
                if (Content(old(world)).None? && faults.unlink) || faults.verify then Raised else Succeeded)
      ensures world.temps == if Content(old(world)).None? && faults.unlink then old(world.temps)
                             else old(world.temps) - {old(world).calls[p].temp}
    {
      var create := world.calls[p].create;
      if create {
        Do(Link(p));
        Do(UnlinkTemp(p, !faults.unlink));
      } else {
        Do(Rename(p));
      }
      if !create || !faults.unlink {
        Verify(p, faults);
      }
    }

    method Verify(p: Pid, faults: Faults)
      requires Valid() && Ready(world, p, FinalRead) && Content(world).Some?
      modifies this`world, this`steps
      ensures Valid() && old(steps) <= steps
      ensures world == At(old(world), p, Finished(true, if faults.verify then Raised else Succeeded))
    {
      if faults.verify {
        Do(Raise(p));
      } else {
        Do(ReadFinal(p));
      }
    }

    /** The `try` block, and its `finally` when nothing was committed. */
    method Complete(p: Pid, faults: Faults)
      requires Valid() && Ready(world, p, Writing(0)) && world.calls[p].temp in world.store
      requires world.store[world.calls[p].temp] == [] && world.leaf != Some(world.calls[p].temp)
      requires Unchallenged(world, p, hash)
      modifies this`world, this`steps
      ensures Valid() && old(steps) <= steps
      ensures world.calls.Keys == old(world.calls.Keys) && world.lock == old(world.lock)
      ensures world.calls[p].locking == old(world.calls)[p].locking
      ensures var ok := !(faults.write || faults.recheck || faults.commit);
              var unlinked := !(old(Content(world)).None? && faults.unlink);
              && Content(world) == (if ok then Some(old(world).calls[p].request.data) else old(Content(world)))
              && world.calls[p].pc == Finished(ok, if ok && unlinked && !faults.verify then Succeeded else Raised)
              && world.temps == if (if ok then unlinked else !faults.cleanup)
                                then old(world.temps) - {old(world).calls[p].temp} else old(world.temps)
    {
      hide Valid, Apply, Enabled, Content, Holds;
      var ok := Build(p, faults);
      assert world.calls.Keys == (world.calls - {p}).Keys + {p};
      assert old(world.calls).Keys == (old(world.calls) - {p}).Keys + {p};
      if ok {
        Publish(p, faults);
      } else {
        Discard(p, faults);
      }
    }

    /**
     * One whole call, with nobody in between: it is a run of the protocol, it commits exactly when it
     * accepts the current content and no system call fails before the commit, it answers truthfully,
     * and it leaves the lock, the other calls and the temporary names as they were.
     */
    method WriteAtomic(p: Pid, request: Request, locking: bool, faults: Faults) returns (outcome: Outcome)
      requires Valid() && p !in world.calls && (locking ==> world.lock.None?)
      requires forall t :: t in world.temps ==> t < world.next
      modifies this`world, this`steps
      ensures Valid() && start == old(start) && old(steps) <= steps
      ensures outcome == Answer(old(Content(world)), request, faults, hash)
      ensures Content(world) == if Publishes(old(Content(world)), request, faults, hash) then Some(request.data)
                                else old(Content(world))
      ensures world.calls.Keys == old(world.calls.Keys) && world.lock == old(world.lock)
      ensures world.temps == old(world.temps) + if Leaks(old(Content(world)), request, faults, hash)
                                                then {old(world.next) + 1} else {}
    {
      hide Valid, Apply, Enabled, Content, Holds;
      var began := Begin(p, request, locking, faults);
      if began {
        Complete(p, faults);
      }
      outcome := Leave(p);
    }

    /** The `finally` block when nothing was committed. */
    method Discard(p: Pid, faults: Faults)
      requires Valid() && Ready(world, p, CleaningUp(Raised))
      modifies this`world, this`steps
      ensures Valid() && old(steps) <= steps && SameFile(old(world), world)
      ensures world.lock == old(world.lock) && world.calls.Keys == old(world.calls.Keys)
      ensures world.calls[p] == old(world).calls[p].(pc := Finished(false, Raised))
      ensures world.temps == if faults.cleanup then old(world.temps) else old(world.temps) - {old(world).calls[p].temp}
    {
      Do(CleanUp(p, !faults.cleanup));
    }

    /** The caller gets the answer and gives the lock back. */
    method Leave(p: Pid) returns (outcome: Outcome)
      requires Valid() && p in world.calls && world.calls[p].pc.Finished?
      modifies this`world, this`steps
      ensures Valid() && old(steps) <= steps && SameFile(old(world), world)
      ensures outcome == old(world).calls[p].pc.outcome
      ensures world.calls.Keys == old(world.calls.Keys) - {p} && world.temps == old(world.temps)
      ensures world.lock == if old(world).calls[p].locking then None else old(world.lock)
    {
      outcome := world.calls[p].pc.outcome;
      Do(Return(p));
    }
  }

  predicate SameFile(w: World, v: World) {
    v.leaf == w.leaf && Content(v) == Content(w)
  }

  /** The target is still what the first read accepted. */
  predicate Unchallenged(w: World, p: Pid, hash: Hash) {
    && p in w.calls
    && (w.calls[p].create <==> Content(w).None?)
    && (w.calls[p].request.expected.Some? ==> Holds(Content(w), w.calls[p].request.expected.value, hash))
    && !w.calls[p].raced
  }

  lemma {:induction false} ExtendRun(w: World, steps: seq<Step>, s: Step, hash: Hash)
    requires Possible(w, steps, hash) && Enabled(After(w, steps, hash), s)
    ensures Possible(w, steps + [s], hash)
    ensures After(w, steps + [s], hash) == Apply(After(w, steps, hash), s, hash)
    decreases |steps|
  {
    if steps == [] {
      assert [s][1..] == [] && steps + [s] == [s];
    } else {
      assert (steps + [s])[1..] == steps[1..] + [s];
      ExtendRun(Apply(w, steps[0], hash), steps[1..], s, hash);
    }
  }
}
