/**
 * What a single call of the write protocol (src/obsidian_mcp/storage/filesystem.py:464-524) goes by when it
 * refuses, commits and answers.
 */
module WriteAnswers {
  import opened Text
  import opened Revisions
  import opened AtomicWrite

  /** The content does not contradict the request: there is no file, or it is the expected one. */
  ghost predicate Fits(leaf: Option<Bytes>, create: bool, expected: Option<string>, hash: Hash) {
    && (create ==> leaf.None?)
    && (expected.Some? ==> leaf.Some? && hash(leaf.value) == expected.value)
  }

  /** A call is refused by either of its reads exactly when what it sees contradicts it. */
  lemma ReadsRefuseMisfits(w: World, p: Pid, hash: Hash)
    requires p in w.calls
    ensures Enabled(w, ReadFirst(p)) ==>
              var a, next := w.calls[p], Apply(w, ReadFirst(p), hash).calls[p];
              if Fits(Content(w), a.request.createOnly, a.request.expected, hash)
              then next.pc == OpenTemp && (next.create <==> a.request.createOnly || Content(w).None?)
              else next.pc == Finished(false, Rejected)
    ensures Enabled(w, ReadSecond(p)) && (w.calls[p].request.expected.Some? ==> !w.calls[p].create) ==>
              var a, next := w.calls[p], Apply(w, ReadSecond(p), hash).calls[p];
              next.pc == if Fits(Content(w), a.create, a.request.expected, hash) then Committing
                         else CleaningUp(Rejected)
  {
  }

  /** A call is answered with success exactly when it is there to see that the target exists. */
  lemma SuccessIsSeen(w: World, s: Step, hash: Hash, p: Pid)
    requires Enabled(w, s) && p in Apply(w, s, hash).calls && (p in w.calls ==> SoundCall(w, p, hash))
    ensures var now := Apply(w, s, hash).calls[p].pc;
            now.Finished? && now.outcome.Succeeded? && (p !in w.calls || w.calls[p].pc != now) <==>
              s == ReadFinal(p) && Content(w).Some?
  {
    hide Apply, Enabled, SoundCall;
    if Actor(s) == Some(p) {
      if s.CleanUp? {
        CleaningUpNeverSucceeds(w, s, hash);
      }
      OwnSuccessIsSeen(w, s, hash, p);
      FinishedOnlyReturns(w, s, hash, p);
    } else {
      BystandersKeepTheirPlace(w, s, hash, p);
    }
  }

  lemma OwnSuccessIsSeen(w: World, s: Step, hash: Hash, p: Pid)
    requires Enabled(w, s) && Actor(s) == Some(p) && p in Apply(w, s, hash).calls
    requires s.CleanUp? ==> p in w.calls && w.calls[p].pc.CleaningUp? && !w.calls[p].pc.outcome.Succeeded?
    ensures var now := Apply(w, s, hash).calls[p].pc;
            now.Finished? && now.outcome.Succeeded? <==> s == ReadFinal(p) && Content(w).Some?
  {
    hide Accepts, Holds, Content, Overtaken;
  }

  lemma CleaningUpNeverSucceeds(w: World, s: Step, hash: Hash)
    requires Enabled(w, s) && s.CleanUp? && (s.p in w.calls ==> SoundCall(w, s.p, hash))
    ensures s.p in w.calls && w.calls[s.p].pc.CleaningUp? && !w.calls[s.p].pc.outcome.Succeeded?
  {
    hide Holds, Content;
  }

  lemma FinishedOnlyReturns(w: World, s: Step, hash: Hash, p: Pid)
    requires Enabled(w, s) && Actor(s) == Some(p)
    ensures s == ReadFinal(p) ==> p in w.calls && !w.calls[p].pc.Finished?
    ensures p in w.calls && w.calls[p].pc.Finished? ==> s == Return(p)
    ensures s == Return(p) ==> p !in Apply(w, s, hash).calls
  {
    hide Accepts, Holds, Content;
  }

  /** The call has read that there is no file, and goes by that as long as it may still commit. */
  ghost predicate FoundNothing(w: World, p: Pid) {
    && p in w.calls && !w.calls[p].pc.FirstRead?
    && (var pc := w.calls[p].pc;
        pc.OpenTemp? || pc.Writing? || pc.SecondRead? || pc.Committing? ==> w.calls[p].create)
  }

  lemma StepKeepsFoundNothing(w: World, s: Step, hash: Hash, p: Pid)
    requires FoundNothing(w, p) && Enabled(w, s) && s != Return(p)
    ensures FoundNothing(Apply(w, s, hash), p)
  {
    hide Content, Accepts, Holds;
  }

  lemma {:induction false} RunKeepsFoundNothing(w: World, steps: seq<Step>, hash: Hash, p: Pid)
    requires FoundNothing(w, p) && Possible(w, steps, hash) && Return(p) !in steps
    ensures FoundNothing(After(w, steps, hash), p)
    decreases |steps|
  {
    hide Apply, Enabled, FoundNothing;
    if steps != [] {
      StepKeepsFoundNothing(w, steps[0], hash, p);
      RunKeepsFoundNothing(Apply(w, steps[0], hash), steps[1..], hash, p);
    }
  }

  /**
   * Creation never destroys: a call that finds no file when it first looks replaces none, whatever the
   * others do meanwhile and whether or not it was asked to create.
   */
  lemma FoundNothingReplacesNothing(w: World, steps: seq<Step>, last: Step, hash: Hash, p: Pid)
    requires Enabled(w, ReadFirst(p)) && Content(w).None?
    requires Possible(Apply(w, ReadFirst(p), hash), steps, hash) && Return(p) !in steps
    requires var v := After(Apply(w, ReadFirst(p), hash), steps, hash);
             Enabled(v, last) && Actor(last) == Some(p) && Commits(v, last)
    ensures After(Apply(w, ReadFirst(p), hash), steps, hash).leaf.None?
  {
    hide After, Possible;
    RunKeepsFoundNothing(Apply(w, ReadFirst(p), hash), steps, hash, p);
  }
}
