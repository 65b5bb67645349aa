/**
 * What the write protocol promises over whole runs, for every interleaving of its steps: no torn
 * target, creation that never destroys, truthful answers, no temporary files left, no lost updates.
 */
module WriteGuarantees {
  import opened Text
  import opened Revisions
  import opened AtomicWrite

  /**
   * Readers never see a torn file, and creation never destroys. Whoever is in the middle of writing
   * whatever, the target holds what the last commit published in one piece (a server's commit its
   * whole data); a create-only request, and every commit through `link`, replaced nothing.
   */
  lemma TargetIsAlwaysWhole(content: Option<Bytes>, steps: seq<Step>, hash: Hash)
    requires Possible(Initial(content), steps, hash)
    ensures var w := After(Initial(content), steps, hash);
            && Content(w) == (if w.log == [] then content else w.log[|w.log| - 1].after)
            && (forall i :: 0 <= i < |w.log| && w.log[i].ByServer? ==>
                  && w.log[i].after == Some(w.log[i].request.data)
                  && (w.log[i].linked || w.log[i].request.createOnly ==> w.log[i].before.None?))
  {
    InitialIsSound(content, hash);
    RunKeepsInv(Initial(content), content, steps, hash);
  }

  /** The answer a caller gets is true: it has committed, once, unless it was rejected or raised before. */
  lemma AnswersAreTrue(content: Option<Bytes>, steps: seq<Step>, hash: Hash, p: Pid)
    requires Possible(Initial(content), steps, hash)
    requires p in After(Initial(content), steps, hash).calls
    requires After(Initial(content), steps, hash).calls[p].pc.Finished?
    ensures var w := After(Initial(content), steps, hash);
            var a := w.calls[p];
            && (a.pc.outcome.Succeeded? ==> Logged(w, a.id))
            && (a.pc.outcome.Rejected? ==> !Logged(w, a.id))
            && (Logged(w, a.id) <==> a.pc.committed)
            && (a.request.createOnly && a.request.expected.Some? ==> !Logged(w, a.id))
  {
    InitialIsSound(content, hash);
    RunKeepsInv(Initial(content), content, steps, hash);
    var w := After(Initial(content), steps, hash);
    assert SoundCall(w, p, hash);
    if Logged(w, w.calls[p].id) {
      KeepsRequests(Initial(content), content, steps, hash);
    }
  }

  /** The log speaks of the request of the call that is still there under the same number. */
  ghost predicate RequestsMatch(w: World) {
    forall p, i :: p in w.calls && 0 <= i < |w.log| && w.log[i].ByServer? && w.log[i].id == w.calls[p].id ==>
      w.log[i].request == w.calls[p].request
  }

  lemma {:induction false} KeepsRequests(w: World, initial: Option<Bytes>, steps: seq<Step>, hash: Hash)
    requires Inv(w, initial, hash) && RequestsMatch(w) && Possible(w, steps, hash)
    ensures RequestsMatch(After(w, steps, hash))
    decreases |steps|
  {
    if steps != [] {
      hide Apply, Enabled;
      var s := steps[0];
      var v := Apply(w, s, hash);
      StepKeepsInv(w, initial, s, hash);
      StepLogs(w, s, hash);
      forall p, i | p in v.calls && 0 <= i < |v.log| && v.log[i].ByServer? && v.log[i].id == v.calls[p].id
        ensures v.log[i].request == v.calls[p].request
      {
        SameRequest(w, s, hash, p);
        if i < |w.log| {
          assert v.log[i] == w.log[i];
        } else {
          assert s.p in v.calls && v.calls[s.p].id == v.log[i].id by { SameRequest(w, s, hash, s.p); }
        }
      }
      KeepsRequests(v, initial, steps[1..], hash);
    }
  }

  lemma SameRequest(w: World, s: Step, hash: Hash, p: Pid)
    requires Enabled(w, s) && p in Apply(w, s, hash).calls
    ensures p in w.calls ==> Apply(w, s, hash).calls[p].id == w.calls[p].id
                             && Apply(w, s, hash).calls[p].request == w.calls[p].request
    ensures p !in w.calls ==> Apply(w, s, hash).calls[p].id == w.next
  {
    hide Apply, Enabled;
    OldCallKeepsRequest(w, s, hash, p);
    NewCallHasNextId(w, s, hash, p);
  }

  lemma OldCallKeepsRequest(w: World, s: Step, hash: Hash, p: Pid)
    requires Enabled(w, s) && p in Apply(w, s, hash).calls
    ensures p in w.calls ==> Apply(w, s, hash).calls[p].id == w.calls[p].id
                             && Apply(w, s, hash).calls[p].request == w.calls[p].request
  {
    hide Content, Accepts, Holds, HasTemp, Published;
  }

  lemma NewCallHasNextId(w: World, s: Step, hash: Hash, p: Pid)
    requires Enabled(w, s) && p in Apply(w, s, hash).calls
    ensures p !in w.calls ==> Apply(w, s, hash).calls[p].id == w.next
  {
    hide Content, Accepts, Holds, HasTemp, Published;
  }

  /** The system call that removes a temporary name fails in this step. */
  predicate UnlinkFails(w: World, s: Step) {
    || (s.UnlinkTemp? && !s.ok)
    || (s.CleanUp? && !s.ok)
    || (s.Raise? && Ready(w, s.p, Unlinking))
  }

  ghost predicate UnlinksSucceed(w: World, steps: seq<Step>, hash: Hash)
    requires Possible(w, steps, hash)
    decreases |steps|
  {
    steps == [] || (!UnlinkFails(w, steps[0]) && UnlinksSucceed(Apply(w, steps[0], hash), steps[1..], hash))
  }

  lemma {:induction false} NothingLeaks(w: World, steps: seq<Step>, hash: Hash)
    requires Possible(w, steps, hash) && UnlinksSucceed(w, steps, hash)
    ensures After(w, steps, hash).leaked == w.leaked
    decreases |steps|
  {
    if steps != [] {
      assert Apply(w, steps[0], hash).leaked == w.leaked;
      NothingLeaks(Apply(w, steps[0], hash), steps[1..], hash);
    }
  }

  /**
   * No temporary file survives its call: at any moment the temporary names are those of calls between
   * creation and removal, plus the names whose unlink failed, and without such failures none remain.
   */
  lemma TempsAreCleanedUp(content: Option<Bytes>, steps: seq<Step>, hash: Hash)
    requires Possible(Initial(content), steps, hash)
    ensures var w := After(Initial(content), steps, hash);
            && (forall t :: t in w.temps ==> t in w.leaked || InUse(w, t))
            && (UnlinksSucceed(Initial(content), steps, hash) && (forall p :: p in w.calls ==> w.calls[p].pc.Finished?)
                ==> w.temps == {})
  {
    InitialIsSound(content, hash);
    RunKeepsInv(Initial(content), content, steps, hash);
    var w := After(Initial(content), steps, hash);
    if UnlinksSucceed(Initial(content), steps, hash) {
      NothingLeaks(Initial(content), steps, hash);
      assert forall t :: t in w.temps ==> InUse(w, t);
    }
  }

  // ---------------------------------------------------------------------------------------
  // No lost updates

  /** A client that pins its write to the content it derived the new one from, or to there being none. */
  ghost predicate Pinned(r: Request, hash: Hash) {
    && r.data == r.edit(r.pin)
    && r.createOnly == r.pin.None?
    && r.expected == (if r.pin.None? then None else Some(hash(r.pin.value)))
  }

  /** To create a file, and to replace a known one: no content of the target meets both demands. */
  predicate Hopeless(r: Request) {
    r.createOnly && r.expected.Some?
  }

  lemma HopelessIsRefused(r: Request, current: Option<Bytes>, hash: Hash)
    ensures Hopeless(r) ==> !Accepts(current, r, hash)
  {
  }

  ghost predicate PinnedOrHopeless(r: Request, hash: Hash) {
    Pinned(r, hash) || Hopeless(r)
  }

  /** Server writers hold the lock and are pinned, or are refused whatever happens. */
  ghost predicate Disciplined(steps: seq<Step>, hash: Hash) {
    forall s :: s in steps && s.Start? ==> s.locking && PinnedOrHopeless(s.request, hash)
  }

  ghost predicate DisciplinedWorld(w: World, hash: Hash) {
    && (forall p :: p in w.calls ==> w.calls[p].locking && PinnedOrHopeless(w.calls[p].request, hash))
    && (forall i :: 0 <= i < |w.log| && w.log[i].ByServer? ==> Pinned(w.log[i].request, hash))
  }

  /** Nobody has been overtaken: there was no outsider. */
  ghost predicate Undisputed(w: World) {
    && (forall p :: p in w.calls && !Published(w.calls[p].pc) ==> !w.calls[p].raced)
    && (forall i :: 0 <= i < |w.log| ==> w.log[i].ByServer? && !w.log[i].raced)
  }

  lemma StepKeepsDiscipline(w: World, initial: Option<Bytes>, s: Step, hash: Hash)
    requires Inv(w, initial, hash) && DisciplinedWorld(w, hash) && Enabled(w, s)
    requires s.Start? ==> s.locking && PinnedOrHopeless(s.request, hash)
    ensures DisciplinedWorld(Apply(w, s, hash), hash)
  {
    hide Pinned;
    var v := Apply(w, s, hash);
    StepLogs(w, s, hash);
    forall p | p in v.calls ensures v.calls[p].locking && PinnedOrHopeless(v.calls[p].request, hash) {
      SameRequest(w, s, hash, p);
      OnlyStartBringsCalls(w, s, hash, p);
    }
  }

  lemma OnlyStartBringsCalls(w: World, s: Step, hash: Hash, p: Pid)
    requires Enabled(w, s) && p in Apply(w, s, hash).calls
    ensures p in w.calls ==> Apply(w, s, hash).calls[p].locking == w.calls[p].locking
    ensures p !in w.calls ==>
              s.Start? && s.p == p && Apply(w, s, hash).calls[p].locking == s.locking
              && Apply(w, s, hash).calls[p].request == s.request && !Apply(w, s, hash).calls[p].raced
  {
  }

  /** Under the lock there is one call at a time. */
  lemma LockIsExclusive(w: World, hash: Hash, p: Pid, q: Pid)
    requires SoundCalls(w, hash) && p in w.calls && q in w.calls && w.calls[p].locking && w.calls[q].locking
    ensures p == q
  {
    assert SoundCall(w, p, hash) && SoundCall(w, q, hash);
  }

  lemma CallStaysUndisputed(w: World, s: Step, hash: Hash, p: Pid)
    requires SoundCalls(w, hash) && DisciplinedWorld(w, hash) && Undisputed(w) && Enabled(w, s) && !Outside(s)
    requires p in Apply(w, s, hash).calls && !Published(Apply(w, s, hash).calls[p].pc)
    ensures !Apply(w, s, hash).calls[p].raced
  {
    OnlyStartBringsCalls(w, s, hash, p);
    if p in w.calls {
      if s.p in w.calls {
        LockIsExclusive(w, hash, p, s.p);
      }
      RacedOnlyByCommit(w, s, hash, p);
    }
  }

  lemma StepKeepsUndisputed(w: World, s: Step, hash: Hash)
    requires SoundStore(w) && SoundCalls(w, hash) && DisciplinedWorld(w, hash) && Undisputed(w)
    requires Enabled(w, s) && !Outside(s)
    ensures Undisputed(Apply(w, s, hash))
  {
    StepLogs(w, s, hash);
    forall p | p in Apply(w, s, hash).calls && !Published(Apply(w, s, hash).calls[p].pc) {
      CallStaysUndisputed(w, s, hash, p);
    }
  }

  lemma RacedOnlyByCommit(w: World, s: Step, hash: Hash, p: Pid)
    requires Enabled(w, s) && p in w.calls && p in Apply(w, s, hash).calls
    ensures Apply(w, s, hash).calls[p].raced ==> w.calls[p].raced || Commits(w, s)
    ensures Commits(w, s) && Actor(s) == Some(p) ==> Published(Apply(w, s, hash).calls[p].pc)
    ensures Actor(s) != Some(p) ==>
              Apply(w, s, hash).calls[p] == (if Commits(w, s) then w.calls[p].(raced := true) else w.calls[p])
  {
  }

  lemma {:induction false} RunKeepsDiscipline(w: World, initial: Option<Bytes>, steps: seq<Step>, hash: Hash)
    requires Inv(w, initial, hash) && DisciplinedWorld(w, hash)
    requires Possible(w, steps, hash) && Disciplined(steps, hash)
    ensures DisciplinedWorld(After(w, steps, hash), hash)
    ensures Undisputed(w) && (forall s :: s in steps ==> !Outside(s)) ==> Undisputed(After(w, steps, hash))
    decreases |steps|
  {
    if steps != [] {
      assert steps[0] in steps;
      StepKeepsInv(w, initial, steps[0], hash);
      StepKeepsDiscipline(w, initial, steps[0], hash);
      if Undisputed(w) && !Outside(steps[0]) {
        StepKeepsUndisputed(w, steps[0], hash);
      }
      RunKeepsDiscipline(Apply(w, steps[0], hash), initial, steps[1..], hash);
    }
  }

  /** The committed edits, applied one after the other to the initial content. */
  ghost function FoldEdits(initial: Option<Bytes>, log: seq<Commit>): Option<Bytes>
    requires forall i :: 0 <= i < |log| ==> log[i].ByServer?
  {
    if log == [] then initial
    else Some(log[|log| - 1].request.edit(FoldEdits(initial, log[..|log| - 1])))
  }

  lemma {:induction false} FoldFollowsChain(initial: Option<Bytes>, log: seq<Commit>, k: nat, hash: Hash)
    requires k <= |log|
    requires forall i :: 0 <= i < |log| ==>
               && log[i].ByServer? && Pinned(log[i].request, hash)
               && log[i].before == log[i].request.pin && log[i].after == Some(log[i].request.data)
    requires forall i :: 0 <= i < |log| - 1 ==> log[i].after == log[i + 1].before
    requires log != [] ==> log[0].before == initial
    ensures FoldEdits(initial, log[..k]) == if k == 0 then initial else log[k - 1].after
  {
    if k > 0 {
      FoldFollowsChain(initial, log, k - 1, hash);
      assert log[..k][..k - 1] == log[..k - 1];
    }
  }

  lemma PinnedCommitIsExact(c: Commit, hash: Hash)
    requires Injective(hash) && c.ByServer? && SoundCommit(c, hash) && !c.raced && Pinned(c.request, hash)
    ensures c.before == c.request.pin
  {
    if c.request.pin.Some? {
      assert hash(c.before.value) == hash(c.request.pin.value);
    }
  }

  /**
   * No lost updates. When every server writer takes the lock and is pinned or hopeless, in every
   * interleaving each commit is a pinned writer's and replaces exactly the content its client had seen,
   * so the file is the fold of the committed edits in commit order: no edit is overwritten by one that
   * did not see it.
   */
  lemma NoLostUpdates(content: Option<Bytes>, steps: seq<Step>, hash: Hash)
    requires Injective(hash)
    requires Possible(Initial(content), steps, hash) && Disciplined(steps, hash)
    requires forall s :: s in steps ==> !Outside(s)
    ensures var w := After(Initial(content), steps, hash);
            && (forall i :: 0 <= i < |w.log| ==>
                  && w.log[i].ByServer? && Pinned(w.log[i].request, hash)
                  && w.log[i].before == w.log[i].request.pin)
            && Content(w) == FoldEdits(content, w.log)
  {
    hide After, Possible, FoldEdits, Content, Pinned;
    var w := After(Initial(content), steps, hash);
    InitialIsSound(content, hash);
    RunKeepsInv(Initial(content), content, steps, hash);
    RunKeepsDiscipline(Initial(content), content, steps, hash);
    forall i | 0 <= i < |w.log| ensures w.log[i].ByServer? && w.log[i].before == w.log[i].request.pin {
      PinnedCommitIsExact(w.log[i], hash);
    }
    FoldFollowsChain(content, w.log, |w.log|, hash);
    assert w.log[..|w.log|] == w.log;
  }

  /** Some step of the stretch changes the target. */
  ghost predicate CommitsIn(w: World, steps: seq<Step>, hash: Hash)
    requires Possible(w, steps, hash)
    decreases |steps|
  {
    steps != [] && (Commits(w, steps[0]) || CommitsIn(Apply(w, steps[0], hash), steps[1..], hash))
  }

  /** While a call waits to commit it is overtaken exactly when somebody changes the target. */
  lemma {:induction false} WindowDecides(w: World, steps: seq<Step>, hash: Hash, p: Pid)
    requires SoundStore(w) && SoundCalls(w, hash) && SoundTemps(w)
    requires Possible(w, steps, hash) && p in w.calls && (forall s :: s in steps ==> Actor(s) != Some(p))
    ensures p in After(w, steps, hash).calls
    ensures After(w, steps, hash).calls[p]
            == if CommitsIn(w, steps, hash) then w.calls[p].(raced := true) else w.calls[p]
    ensures !CommitsIn(w, steps, hash) ==> Content(After(w, steps, hash)) == Content(w)
    decreases |steps|
  {
    if steps != [] {
      var s := steps[0];
      var v := Apply(w, s, hash);
      assert s in steps;
      BystandersKeepTheirPlace(w, s, hash, p);
      RacedOnlyByCommit(w, s, hash, p);
      StepLogs(w, s, hash);
      SoundStep(w, s, hash);
      WindowDecides(v, steps[1..], hash, p);
    }
  }

  lemma SoundStep(w: World, s: Step, hash: Hash)
    requires SoundStore(w) && SoundCalls(w, hash) && SoundTemps(w) && Enabled(w, s)
    ensures SoundStore(Apply(w, s, hash)) && SoundCalls(Apply(w, s, hash), hash) && SoundTemps(Apply(w, s, hash))
  {
    var v := Apply(w, s, hash);
    StepKeepsStore(w, s, hash);
    forall p | p in v.calls ensures SoundCall(v, p, hash) {
      StepKeepsCall(w, s, hash, p);
    }
    StepHasTempEffect(w, s, hash);
    assert forall p :: p in w.calls ==> SoundCall(w, p, hash);
    TempEffectKeepsSound(w, v, Actor(s));
  }

  /** While a call holds the lock, no other server call can take a step. */
  lemma OthersAreLockedOut(w: World, s: Step, hash: Hash, p: Pid)
    requires SoundCalls(w, hash) && DisciplinedWorld(w, hash) && p in w.calls
    requires Enabled(w, s) && Actor(s) != Some(p) && (s.Start? ==> s.locking)
    ensures Outside(s)
  {
    assert SoundCall(w, p, hash);
    forall q | q in w.calls ensures q == p {
      LockIsExclusive(w, hash, p, q);
    }
  }

  /** Under the lock, only an outsider can change the target while a call is between its steps. */
  lemma {:induction false} OnlyOutsidersOvertake(w: World, steps: seq<Step>, hash: Hash, p: Pid)
    requires SoundStore(w) && SoundCalls(w, hash) && SoundTemps(w) && DisciplinedWorld(w, hash)
    requires Possible(w, steps, hash) && Disciplined(steps, hash)
    requires p in w.calls && (forall s :: s in steps ==> Actor(s) != Some(p))
    ensures CommitsIn(w, steps, hash) <==> exists s :: s in steps && Outside(s)
    decreases |steps|
  {
    if steps != [] {
      var s := steps[0];
      var v := Apply(w, s, hash);
      assert s in steps && Actor(s) != Some(p);
      OthersAreLockedOut(w, s, hash, p);
      BystandersKeepTheirPlace(w, s, hash, p);
      SoundStep(w, s, hash);
      StepLogs(w, s, hash);
      forall q | q in v.calls ensures v.calls[q].locking && PinnedOrHopeless(v.calls[q].request, hash) {
        SameRequest(w, s, hash, q);
        OnlyStartBringsCalls(w, s, hash, q);
      }
      OnlyOutsidersOvertake(v, steps[1..], hash, p);
      assert forall t :: t in steps <==> t == s || t in steps[1..];
    }
  }

  /** What the last outside step of the stretch leaves, if there is one. */
  function LeftBy(steps: seq<Step>): Option<Option<Bytes>> {
    if steps == [] then None
    else match steps[|steps| - 1]
      case OutsideWrite(content) => Some(Some(content))
      case OutsideDelete => Some(None)
      case _ => LeftBy(steps[..|steps| - 1])
  }

  lemma {:induction false} LeftByFirst(s: Step, rest: seq<Step>)
    ensures LeftBy([s] + rest) == if LeftBy(rest).Some? then LeftBy(rest) else LeftBy([s])
    decreases |rest|
  {
    var steps := [s] + rest;
    if rest == [] {
      assert steps == [s];
    } else {
      assert steps[..|steps| - 1] == [s] + rest[..|rest| - 1];
      LeftByFirst(s, rest[..|rest| - 1]);
    }
  }

  lemma OutsideLeaves(w: World, s: Step, hash: Hash)
    requires SoundStore(w) && Enabled(w, s) && Outside(s)
    ensures LeftBy([s]) == Some(Content(Apply(w, s, hash)))
  {
  }

  /** While a call holds the lock, the target is what the last outside step left. */
  lemma {:induction false} LastOutsiderDecides(w: World, steps: seq<Step>, hash: Hash, p: Pid)
    requires SoundStore(w) && SoundCalls(w, hash) && SoundTemps(w) && DisciplinedWorld(w, hash)
    requires Possible(w, steps, hash) && Disciplined(steps, hash)
    requires p in w.calls && (forall s :: s in steps ==> Actor(s) != Some(p))
    ensures Content(After(w, steps, hash)) == if LeftBy(steps).Some? then LeftBy(steps).value else Content(w)
    ensures LeftBy(steps).Some? <==> exists s :: s in steps && Outside(s)
    decreases |steps|
  {
    hide Content, Apply, LeftBy;
    if steps == [] {
      LeftByNothing();
    } else {
      var s, rest := steps[0], steps[1..];
      var v := Apply(w, s, hash);
      assert s in steps && Actor(s) != Some(p) && steps == [s] + rest;
      OthersAreLockedOut(w, s, hash, p);
      BystandersKeepTheirPlace(w, s, hash, p);
      SoundStep(w, s, hash);
      OutsideLeaves(w, s, hash);
      LeftByFirst(s, rest);
      forall q | q in v.calls ensures v.calls[q].locking && PinnedOrHopeless(v.calls[q].request, hash) {
        SameRequest(w, s, hash, q);
        OnlyStartBringsCalls(w, s, hash, q);
      }
      StepLogs(w, s, hash);
      LastOutsiderDecides(v, rest, hash, p);
    }
  }

  /** A pinned replacement that passes its second read finds there what it has pinned. */
  lemma PassedIsPinned(w: World, hash: Hash, p: Pid)
    requires Injective(hash) && SoundCalls(w, hash) && DisciplinedWorld(w, hash)
    requires Enabled(w, ReadSecond(p)) && w.calls[p].request.pin.Some?
    requires Ready(Apply(w, ReadSecond(p), hash), p, Committing)
    ensures var v := Apply(w, ReadSecond(p), hash);
            && Content(w) == w.calls[p].request.pin && Content(v) == Content(w)
            && v.calls[p] == w.calls[p].(pc := Committing, raced := false) && !v.calls[p].create
  {
    assert SoundCall(w, p, hash);
    assert Holds(Content(w), w.calls[p].request.expected.value, hash);
  }

  lemma RenameLogs(u: World, hash: Hash, p: Pid)
    requires Ready(u, p, Committing) && !u.calls[p].create
    ensures Enabled(u, Rename(p))
    ensures var v := Apply(u, Rename(p), hash);
            var a := u.calls[p];
            v.log == u.log + [ByServer(a.id, a.request, false, a.raced, Content(u), Some(a.request.data))]
  {
    hide Content;
  }

  lemma LeftByNothing()
    ensures LeftBy([]) == None
  {
  }

  /**
   * With an outside process in play, an update can be lost only in the window. Take any run up to the
   * second revision read of a pinned replacement that passes it, and any steps of others until its
   * rename. The rename replaces exactly the content that was pinned if and only if none of them is the
   * outsider's, or the last one that is leaves that very content; and the commit is marked as overtaken
   * if and only if one of them is the outsider's.
   */
  lemma LostOnlyInTheWindow(
      content: Option<Bytes>, steps: seq<Step>, window: seq<Step>, hash: Hash, p: Pid)
    requires Injective(hash)
    requires Possible(Initial(content), steps, hash) && Disciplined(steps, hash) && Disciplined(window, hash)
    requires var w := After(Initial(content), steps, hash);
             && Enabled(w, ReadSecond(p)) && w.calls[p].request.pin.Some?
             && Ready(Apply(w, ReadSecond(p), hash), p, Committing)
             && Possible(Apply(w, ReadSecond(p), hash), window, hash)
    requires forall s :: s in window ==> Actor(s) != Some(p)
    ensures var w := After(Initial(content), steps, hash);
            var u := After(Apply(w, ReadSecond(p), hash), window, hash);
            var overtaken := exists s :: s in window && Outside(s);
            && Enabled(u, Rename(p))
            && var c := Apply(u, Rename(p), hash).log[|u.log|];
            && c.ByServer? && c.before == Content(u) && c.request == w.calls[p].request
            && (c.raced <==> overtaken)
            && (c.before == c.request.pin <==> !overtaken || LeftBy(window) == Some(c.request.pin))
  {
    hide Apply, Content, Enabled, LeftBy, Pinned, Injective, SoundStore, SoundTemps, SoundLog, SoundIds;
    var w := After(Initial(content), steps, hash);
    InitialIsSound(content, hash);
    RunKeepsInv(Initial(content), content, steps, hash);
    RunKeepsDiscipline(Initial(content), content, steps, hash);
    var v := Apply(w, ReadSecond(p), hash);
    PassedIsPinned(w, hash, p);
    SoundStep(w, ReadSecond(p), hash);
    StepKeepsDiscipline(w, content, ReadSecond(p), hash);
    WindowDecides(v, window, hash, p);
    OnlyOutsidersOvertake(v, window, hash, p);
    LastOutsiderDecides(v, window, hash, p);
    RenameLogs(After(v, window, hash), hash, p);
  }

  // ---------------------------------------------------------------------------------------
  // The window is real

  lemma StepFirst(w: World, s: Step, rest: seq<Step>, hash: Hash)
    requires Enabled(w, s) && Possible(Apply(w, s, hash), rest, hash)
    ensures Possible(w, [s] + rest, hash)
    ensures After(w, [s] + rest, hash) == After(Apply(w, s, hash), rest, hash)
  {
    assert ([s] + rest)[1..] == rest;
  }

  /** A pinned replacement of [1] by [2]. */
  function Replacing(hash: Hash): Request {
    Request(Some(hash([1])), false, [2], Some([1]), seen => [2])
  }

  /** Its temporary file is there, and empty. */
  function WaitingToWrite(hash: Hash): World {
    World(Some(0), map[0 := [1], 2 := []], {2}, Some(0),
          map[0 := Attempt(1, Replacing(hash), true, Writing(0), false, 2, false)], [], {}, 3)
  }

  /** The temporary file is written, and the target has been read again. */
  function WaitingToCommit(hash: Hash): World {
    World(Some(0), map[0 := [1], 2 := [2]], {2}, Some(0),
          map[0 := Attempt(1, Replacing(hash), true, Committing, false, 2, false)], [], {}, 3)
  }

  function UpToCommit(hash: Hash): seq<Step> {
    [Start(0, Replacing(hash), true), ReadFirst(0), CreateTemp(0), WriteSome(0, 1), Close(0), ReadSecond(0)]
  }

  lemma ThreeSteps(w: World, a: Step, b: Step, c: Step, rest: seq<Step>, hash: Hash)
    requires Enabled(w, a) && Enabled(Apply(w, a, hash), b) && Enabled(Apply(Apply(w, a, hash), b, hash), c)
    requires Possible(Apply(Apply(Apply(w, a, hash), b, hash), c, hash), rest, hash)
    ensures Possible(w, [a, b, c] + rest, hash)
    ensures After(w, [a, b, c] + rest, hash) == After(Apply(Apply(Apply(w, a, hash), b, hash), c, hash), rest, hash)
  {
    hide Apply, Enabled;
    var v := Apply(w, a, hash);
    StepFirst(Apply(v, b, hash), c, rest, hash);
    StepFirst(v, b, [c] + rest, hash);
    StepFirst(w, a, [b] + ([c] + rest), hash);
    assert [a] + ([b] + ([c] + rest)) == [a, b, c] + rest;
  }

  lemma ReachesWriting(hash: Hash)
    ensures var w := Initial(Some([1]));
            var a, b, c := Start(0, Replacing(hash), true), ReadFirst(0), CreateTemp(0);
            && Enabled(w, a) && Enabled(Apply(w, a, hash), b) && Enabled(Apply(Apply(w, a, hash), b, hash), c)
            && Apply(Apply(Apply(w, a, hash), b, hash), c, hash) == WaitingToWrite(hash)
  {
  }

  lemma ReachesSecondRead(hash: Hash)
    ensures var w := WaitingToWrite(hash);
            var a, b, c := WriteSome(0, 1), Close(0), ReadSecond(0);
            && Enabled(w, a) && Enabled(Apply(w, a, hash), b) && Enabled(Apply(Apply(w, a, hash), b, hash), c)
            && Apply(Apply(Apply(w, a, hash), b, hash), c, hash) == WaitingToCommit(hash)
  {
    assert Replacing(hash).data[..1] == [2];
  }

  lemma ReachesCommit(hash: Hash)
    ensures Possible(Initial(Some([1])), UpToCommit(hash), hash)
    ensures After(Initial(Some([1])), UpToCommit(hash), hash) == WaitingToCommit(hash)
    ensures Disciplined(UpToCommit(hash), hash)
  {
    hide Apply, Enabled;
    ReachesWriting(hash);
    ReachesSecondRead(hash);
    var first, second := [Start(0, Replacing(hash), true), ReadFirst(0), CreateTemp(0)],
                         [WriteSome(0, 1), Close(0), ReadSecond(0)];
    assert second + [] == second && UpToCommit(hash) == first + second;
    ThreeSteps(WaitingToWrite(hash), second[0], second[1], second[2], [], hash);
    ThreeSteps(Initial(Some([1])), first[0], first[1], first[2], second, hash);
  }

  /** An outsider that writes [3] at that moment is overwritten by the commit, which had pinned [1]. */
  lemma OutsiderIsOverwritten(hash: Hash)
    ensures var steps := [OutsideWrite([3]), Rename(0)];
            && Possible(WaitingToCommit(hash), steps, hash)
            && var w := After(WaitingToCommit(hash), steps, hash);
            && Content(w) == Some([2]) && |w.log| == 2
            && w.log[1].ByServer? && w.log[1].before == Some([3]) && w.log[1].request.pin == Some([1]) && w.log[1].raced
  {
    var w := WaitingToCommit(hash);
    var v := Apply(w, OutsideWrite([3]), hash);
    StepFirst(v, Rename(0), [], hash);
    StepFirst(w, OutsideWrite([3]), [Rename(0)] + [], hash);
    assert [OutsideWrite([3])] + ([Rename(0)] + []) == [OutsideWrite([3]), Rename(0)];
  }
}
