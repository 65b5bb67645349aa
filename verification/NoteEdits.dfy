/**
 * The note writers of src/obsidian_mcp/tools/write.py as clients of the write protocol: what they ask
 * `_write_atomic` for, that the request is pinned to what they read, and that an append repeated with
 * the same revision is refused.
 */
module NoteEdits {
  import opened Text
  import opened Revisions
  import opened AtomicWrite
  import opened WriteGuarantees
  import opened WriteCall

  /** UTF-8; decoding replaces malformed bytes, so it need not be undone by encoding. */
  datatype Codec = Codec(decode: Bytes -> string, encode: string -> Bytes)

  ghost predicate RoundTrips(codec: Codec) {
    forall s :: codec.decode(codec.encode(s)) == s
  }

  // ---------------------------------------------------------------------------------------
  // Appending

  /** An append without a section. */
  function AppendText(raw: string, content: string, space: Space): string {
    RStrip(raw, '\n') + "\n\n" + Trim(content, space) + "\n"
  }

  predicate BlankText(content: string, space: Space) {
    forall i :: 0 <= i < |content| ==> space(content[i])
  }

  lemma TrimOfBlank(content: string, space: Space)
    ensures Trim(content, space) == "" <==> BlankText(content, space)
  {
    var left := TrimLeft(content, space);
    if left != "" {
      assert content[|content| - |left|] == left[0];
    }
  }

  lemma {:induction false} RStripOf(s: string, c: char, n: nat)
    requires n <= |s| && (n == 0 || s[n - 1] != c) && forall i :: n <= i < |s| ==> s[i] == c
    ensures RStrip(s, c) == s[..n]
  {
    if n < |s| {
      RStripOf(s[..|s| - 1], c, n);
      assert s[..|s| - 1][..n] == s[..n];
    }
  }

  /** The visible part of the text: what is around it is white space, and it neither starts nor ends with any. */
  ghost predicate Visible(content: string, from: nat, to: nat, space: Space) {
    && from <= to <= |content|
    && (forall i :: 0 <= i < |content| && !(from <= i < to) ==> space(content[i]))
    && (from < to ==> !space(content[from]) && !space(content[to - 1]))
  }

  lemma TrimIsVisible(content: string, from: nat, to: nat, space: Space)
    requires Visible(content, from, to, space)
    ensures Trim(content, space) == content[from..to]
  {
    hide TrimLeft, TrimRight;
    if from == to {
      TrimOfBlank(content, space);
    } else {
      var left := TrimLeft(content, space);
      assert left[0] == content[|content| - |left|];
      assert |content| - |left| == from;
      var right := TrimRight(left, space);
      assert right != "" by { assert left[0] == content[from]; }
      assert right[|right| - 1] == content[from + |right| - 1];
      assert left[to - 1 - from] == content[to - 1];
      assert from + |right| == to;
    }
  }

  /**
   * An append keeps the note up to its last line with something in it, character for character, and puts
   * the visible part of the content behind it, after one empty line.
   */
  lemma AppendKeepsText(raw: string, n: nat, content: string, from: nat, to: nat, space: Space)
    requires n <= |raw| && (n == 0 || raw[n - 1] != '\n') && forall i :: n <= i < |raw| ==> raw[i] == '\n'
    requires Visible(content, from, to, space)
    ensures AppendText(raw, content, space) == raw[..n] + "\n\n" + content[from..to] + "\n"
  {
    hide Trim, RStrip;
    RStripOf(raw, '\n', n);
    TrimIsVisible(content, from, to, space);
  }

  /**
   * An append changes nothing exactly when the content is blank and the note already ends in exactly
   * three newlines.
   */
  lemma AppendChangesText(raw: string, content: string, space: Space)
    requires space('\n')
    ensures AppendText(raw, content, space) == raw
            <==> BlankText(content, space) && raw == RStrip(raw, '\n') + "\n\n\n"
  {
    hide RStrip, Trim, BlankText;
    TrimOfBlank(content, space);
    var kept, added := RStrip(raw, '\n'), Trim(content, space);
    if added == "" {
      assert AppendText(raw, content, space) == kept + "\n\n\n";
    } else {
      TrimEndsInInk(content, space);
      StripKeepsAdded(kept, added);
    }
  }

  lemma TrimEndsInInk(content: string, space: Space)
    ensures var r := Trim(content, space); r == "" || !space(r[|r| - 1])
  {
  }

  lemma StripKeepsAdded(kept: string, added: string)
    requires added != "" && added[|added| - 1] != '\n'
    ensures |RStrip(kept + "\n\n" + added + "\n", '\n')| == |kept| + 2 + |added|
  {
    var patched := kept + "\n\n" + added + "\n";
    var n := |kept| + 2 + |added|;
    assert patched[n - 1] == added[|added| - 1] && patched[n] == '\n' && |patched| == n + 1;
    RStripOf(patched, '\n', n);
  }

  /** A note of three newlines takes a blank append without a change. */
  lemma BlankAppendIsLost(space: Space)
    requires space('\n') && space(' ')
    ensures AppendText("\n\n\n", " ", space) == "\n\n\n"
  {
    RStripOf("\n\n\n", '\n', 0);
    AppendChangesText("\n\n\n", " ", space);
    assert "\n\n\n" == RStrip("\n\n\n", '\n') + "\n\n\n";
  }

  /** The bytes stay the same only if the text does and decoding had lost nothing. */
  lemma AppendChangesBytes(seen: Bytes, content: string, codec: Codec, space: Space)
    requires RoundTrips(codec) && space('\n')
    ensures var raw := codec.decode(seen);
            codec.encode(AppendText(raw, content, space)) == seen
            <==> && BlankText(content, space) && raw == RStrip(raw, '\n') + "\n\n\n"
                 && codec.encode(raw) == seen
  {
    var raw := codec.decode(seen);
    AppendChangesText(raw, content, space);
    assert codec.decode(codec.encode(AppendText(raw, content, space))) == AppendText(raw, content, space);
  }

  /** What the append makes of the file it saw. */
  function AppendEdit(content: string, codec: Codec, space: Space): Edit {
    (seen: Option<Bytes>) =>
      if seen.None? then codec.encode(content) else codec.encode(AppendText(codec.decode(seen.value), content, space))
  }

  /** `append_to_note` up to the write: the request it makes, or the error it raises. */
  function AppendRequest(
      leaf: Option<Bytes>, expected: Option<string>, content: string, create: bool,
      hash: Hash, codec: Codec, space: Space)
    : Result<Request, RevisionError>
  {
    var edit := AppendEdit(content, codec, space);
    if leaf.Some? then
      match ReadForUpdate(leaf, expected, hash)
      case Err(e) => Err(e)
      case Ok((seen, token)) => Ok(Request(Some(token), false, edit(Some(seen)), Some(seen), edit))
    else if create then
      if expected.Some? then Err(Conflict) else Ok(Request(None, true, edit(None), None, edit))
    else Err(NotFound)
  }

  /**
   * Append is at most once: the retry of an append that went through, with the revision it was pinned
   * to, conflicts, so it never reaches the file; only an append that changed no byte goes through twice.
   */
  lemma AppendIsAtMostOnce(
      seen: Bytes, content: string, create: bool, hash: Hash, codec: Codec, space: Space)
    requires Injective(hash) && RoundTrips(codec) && space('\n')
    ensures var token := Some(hash(seen));
            var first := AppendRequest(Some(seen), token, content, create, hash, codec, space);
            && first.Ok?
            && (AppendRequest(Some(first.value.data), token, content, create, hash, codec, space) == Err(Conflict)
                <==> first.value.data != seen)
            && (!BlankText(content, space) ==> first.value.data != seen)
  {
    AppendChangesBytes(seen, content, codec, space);
    var data := AppendEdit(content, codec, space)(Some(seen));
    assert hash(data) == hash(seen) <==> data == seen;
  }

  // ---------------------------------------------------------------------------------------
  // Writing a whole note

  /** What `write_note` makes of the old text and the new: it may carry the old frontmatter over. */
  type Merge = (string, string) -> string

  function WriteEdit(content: string, merge: Merge, codec: Codec): Edit {
    (seen: Option<Bytes>) => codec.encode(merge(if seen.None? then "" else codec.decode(seen.value), content))
  }

  /** `write_note` up to the write. */
  function WriteRequest(
      leaf: Option<Bytes>, expected: Option<string>, content: string, createOnly: bool, strict: bool,
      hash: Hash, codec: Codec, merge: Merge)
    : Result<Request, RevisionError>
  {
    var edit := WriteEdit(content, merge, codec);
    if leaf.Some? then
      match ReadForUpdate(leaf, expected, hash)
      case Err(e) => Err(e)
      case Ok((seen, token)) =>
        if !createOnly && strict && expected.None? then Err(PreconditionRequired)
        else Ok(Request(Some(token), createOnly, edit(Some(seen)), Some(seen), edit))
    else if expected.Some? then Err(Conflict)
    else Ok(Request(None, true, edit(None), None, edit))
  }

  /**
   * Both writers are pinned to what they read, as the absence of lost updates asks of its writers,
   * except for `write_note` asked to create a note that exists: that request is refused whatever the
   * file holds when it gets there.
   */
  lemma WritersArePinned(
      leaf: Option<Bytes>, expected: Option<string>, content: string, createOnly: bool, strict: bool, create: bool,
      hash: Hash, codec: Codec, merge: Merge, space: Space)
    ensures var append := AppendRequest(leaf, expected, content, create, hash, codec, space);
            append.Ok? ==> Pinned(append.value, hash) && append.value.pin == leaf && Accepts(leaf, append.value, hash)
    ensures var write := WriteRequest(leaf, expected, content, createOnly, strict, hash, codec, merge);
            write.Ok? ==>
              && write.value.pin == leaf
              && if createOnly && leaf.Some? then Hopeless(write.value)
                 else Pinned(write.value, hash) && Accepts(leaf, write.value, hash)
  {
  }

  /** One call of one of the two writers. */
  datatype Client =
    | Appending(expected: Option<string>, content: string, create: bool)
    | Overwriting(expected: Option<string>, content: string, createOnly: bool, strict: bool)

  function ClientRequest(
      client: Client, leaf: Option<Bytes>, hash: Hash, codec: Codec, merge: Merge, space: Space)
    : Result<Request, RevisionError>
  {
    match client
    case Appending(expected, content, create) => AppendRequest(leaf, expected, content, create, hash, codec, space)
    case Overwriting(expected, content, createOnly, strict) =>
      WriteRequest(leaf, expected, content, createOnly, strict, hash, codec, merge)
  }

  /** The request of one of the two writers, on whatever it read under the lock. */
  ghost predicate FromClient(r: Request, hash: Hash, codec: Codec, merge: Merge, space: Space) {
    exists client, leaf :: ClientRequest(client, leaf, hash, codec, merge, space) == Ok(r)
  }

  /**
   * In every interleaving of appends and full writes that hold the lock, with nobody else about, no
   * update is lost: each commit replaces exactly what its client had read.
   */
  lemma ClientsLoseNoUpdates(
      content: Option<Bytes>, steps: seq<Step>, hash: Hash, codec: Codec, merge: Merge, space: Space)
    requires Injective(hash) && Possible(Initial(content), steps, hash)
    requires forall s :: s in steps ==>
               !Outside(s) && (s.Start? ==> s.locking && FromClient(s.request, hash, codec, merge, space))
    ensures var w := After(Initial(content), steps, hash);
            && (forall i :: 0 <= i < |w.log| ==> w.log[i].ByServer? && w.log[i].before == w.log[i].request.pin)
            && Content(w) == FoldEdits(content, w.log)
  {
    hide AppendRequest, WriteRequest, Pinned, FoldEdits;
    forall s | s in steps && s.Start? ensures s.locking && PinnedOrHopeless(s.request, hash) {
      ClientIsDisciplined(s.request, hash, codec, merge, space);
    }
    NoLostUpdates(content, steps, hash);
  }

  lemma ClientIsDisciplined(r: Request, hash: Hash, codec: Codec, merge: Merge, space: Space)
    requires FromClient(r, hash, codec, merge, space)
    ensures PinnedOrHopeless(r, hash)
  {
    hide AppendRequest, WriteRequest, Pinned;
    var client, leaf :| ClientRequest(client, leaf, hash, codec, merge, space) == Ok(r);
    match client
    case Appending(expected, content, create) =>
      WritersArePinned(leaf, expected, content, false, false, create, hash, codec, merge, space);
    case Overwriting(expected, content, createOnly, strict) =>
      WritersArePinned(leaf, expected, content, createOnly, strict, false, hash, codec, merge, space);
  }

  // ---------------------------------------------------------------------------------------
  // Whole calls

  datatype Answer = Written | Refused(error: RevisionError) | Failed(outcome: Outcome)

  /** No system call fails. */
  const QUIET := Faults(false, false, false, false, false, false, false)

  /** What came of a request that was made on this content. */
  function Response(
      leaf: Option<Bytes>, request: Result<Request, RevisionError>, faults: Faults, hash: Hash): Answer
  {
    match request
    case Err(e) => Refused(e)
    case Ok(r) =>
      var outcome := WriteCall.Answer(leaf, r, faults, hash);
      if outcome.Succeeded? then Written else Failed(outcome)
  }

  function ContentAfter(
      leaf: Option<Bytes>, request: Result<Request, RevisionError>, faults: Faults, hash: Hash): Option<Bytes>
  {
    if request.Ok? && Publishes(leaf, request.value, faults, hash) then Some(request.value.data) else leaf
  }

  /** `append_to_note` under the lock, with nobody in between. */
  method AppendToNote(
      target: Target, p: Pid, content: string, create: bool, expected: Option<string>, faults: Faults,
      codec: Codec, space: Space)
    returns (answer: Answer)
    requires target.Valid() && p !in target.world.calls && target.world.lock.None?
    requires forall t :: t in target.world.temps ==> t < target.world.next
    modifies target`world, target`steps
    ensures target.Valid() && target.start == old(target.start) && old(target.steps) <= target.steps
    ensures var leaf := old(Content(target.world));
            var request := AppendRequest(leaf, expected, content, create, target.hash, codec, space);
            && answer == Response(leaf, request, faults, target.hash)
            && Content(target.world) == ContentAfter(leaf, request, faults, target.hash)
    ensures RoundTrips(codec) && faults == QUIET ==>
              var leaf, after := old(Content(target.world)), Content(target.world);
              && (answer == Written
                  <==> if leaf.None? then create && expected.None?
                       else expected.None? || target.hash(leaf.value) == expected.value)
              && (answer == Written ==>
                    && after.Some?
                    && codec.decode(after.value)
                       == if leaf.None? then content else AppendText(codec.decode(leaf.value), content, space))
              && (answer != Written ==> after == leaf)
    ensures target.world.lock.None? && target.world.calls.Keys == old(target.world.calls.Keys)
  {
    hide AppendRequest, RoundTrips, Response, ContentAfter;
    var leaf := Content(target.world);
    var request := AppendRequest(leaf, expected, content, create, target.hash, codec, space);
    answer := Send(target, p, request, faults);
    if RoundTrips(codec) {
      AnswersMatchTheFile(leaf, expected, content, create, target.hash, codec, space);
    }
  }

  /** `write_note` under the lock, with nobody in between. */
  method WriteNote(
      target: Target, p: Pid, content: string, createOnly: bool, strict: bool, expected: Option<string>,
      faults: Faults, codec: Codec, merge: Merge)
    returns (answer: Answer)
    requires target.Valid() && p !in target.world.calls && target.world.lock.None?
    requires forall t :: t in target.world.temps ==> t < target.world.next
    modifies target`world, target`steps
    ensures target.Valid() && target.start == old(target.start) && old(target.steps) <= target.steps
    ensures var leaf := old(Content(target.world));
            var request := WriteRequest(leaf, expected, content, createOnly, strict, target.hash, codec, merge);
            && answer == Response(leaf, request, faults, target.hash)
            && Content(target.world) == ContentAfter(leaf, request, faults, target.hash)
    ensures RoundTrips(codec) && faults == QUIET ==>
              var leaf, after := old(Content(target.world)), Content(target.world);
              && (answer == Written
                  <==> if leaf.None? then expected.None?
                       else
                         && !createOnly
                         && if expected.None? then !strict else target.hash(leaf.value) == expected.value)
              && (answer == Written ==>
                    && after.Some?
                    && codec.decode(after.value)
                       == merge(if leaf.None? then "" else codec.decode(leaf.value), content))
              && (answer != Written ==> after == leaf)
    ensures target.world.lock.None? && target.world.calls.Keys == old(target.world.calls.Keys)
  {
    hide WriteRequest, RoundTrips, Response, ContentAfter;
    var leaf := Content(target.world);
    var request := WriteRequest(leaf, expected, content, createOnly, strict, target.hash, codec, merge);
    answer := Send(target, p, request, faults);
    if RoundTrips(codec) {
      WritingMatchesTheFile(leaf, expected, content, createOnly, strict, target.hash, codec, merge);
    }
  }

  /** The common end of the writers: raise, or write and tell. */
  method Send(target: Target, p: Pid, request: Result<Request, RevisionError>, faults: Faults) returns (answer: Answer)
    requires target.Valid() && p !in target.world.calls && target.world.lock.None?
    requires forall t :: t in target.world.temps ==> t < target.world.next
    modifies target`world, target`steps
    ensures target.Valid() && target.start == old(target.start) && old(target.steps) <= target.steps
    ensures answer == Response(old(Content(target.world)), request, faults, target.hash)
    ensures Content(target.world) == ContentAfter(old(Content(target.world)), request, faults, target.hash)
    ensures target.world.lock.None? && target.world.calls.Keys == old(target.world.calls.Keys)
  {
    match request {
      case Err(e) => answer := Refused(e);
      case Ok(r) =>
        var outcome := target.WriteAtomic(p, r, true, faults);
        answer := if outcome.Succeeded? then Written else Failed(outcome);
    }
  }

  /** With no failing system call, a writer's answer says what the file holds now. */
  lemma AnswersMatchTheFile(
      leaf: Option<Bytes>, expected: Option<string>, content: string, create: bool,
      hash: Hash, codec: Codec, space: Space)
    requires RoundTrips(codec)
    ensures var request := AppendRequest(leaf, expected, content, create, hash, codec, space);
            var after := ContentAfter(leaf, request, QUIET, hash);
            && (Response(leaf, request, QUIET, hash) == Written
                <==> if leaf.Some? then expected.None? || Holds(leaf, expected.value, hash)
                     else create && expected.None?)
            && (Response(leaf, request, QUIET, hash) == Written ==>
                  && after.Some?
                  && codec.decode(after.value)
                     == if leaf.None? then content else AppendText(codec.decode(leaf.value), content, space))
            && (Response(leaf, request, QUIET, hash) != Written ==> after == leaf)
  {
    hide AppendText, Injective;
  }

  /**
   * And so does the answer to a full write: it is written exactly when nothing contradicts what the
   * caller expects, and then the file reads as the old text and the new make it; otherwise it is as
   * before.
   */
  lemma WritingMatchesTheFile(
      leaf: Option<Bytes>, expected: Option<string>, content: string, createOnly: bool, strict: bool,
      hash: Hash, codec: Codec, merge: Merge)
    requires RoundTrips(codec)
    ensures var request := WriteRequest(leaf, expected, content, createOnly, strict, hash, codec, merge);
            var after := ContentAfter(leaf, request, QUIET, hash);
            && (Response(leaf, request, QUIET, hash) == Written
                <==> if leaf.None? then expected.None?
                     else !createOnly && if expected.None? then !strict else hash(leaf.value) == expected.value)
            && (Response(leaf, request, QUIET, hash) == Written ==>
                  && after.Some?
                  && codec.decode(after.value)
                     == merge(if leaf.None? then "" else codec.decode(leaf.value), content))
            && (Response(leaf, request, QUIET, hash) != Written ==> after == leaf)
  {
  }
}
