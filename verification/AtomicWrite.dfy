/**
 * VaultStorage._write_atomic (src/obsidian_mcp/storage/filesystem.py) as a protocol: each system call
 * is one step, and the steps of any number of server writers, holding the per-path lock or not, are
 * interleaved with an outside process that replaces or deletes the file. One directory entry, the
 * target, is modelled, together with the temporary names beside it. Names refer to inodes, so a hard
 * link shares its content with the temporary file it was made from. `link` fails when the target
 * exists and `rename` replaces it (POSIX.1-2017, System Interfaces, link and rename); both are atomic.
 */
module AtomicWrite {
  import opened Text
  import opened Revisions

  type Pid = nat
  type Inode = nat
  type Edit = Option<Bytes> -> Bytes

  /**
   * What one call asks for. `pin` and `edit` say where a client's data came from: the content the
   * client saw, and what it made of it; only `Pinned` ties them to the other fields.
   */
  datatype Request = Request(expected: Option<string>, createOnly: bool, data: Bytes, pin: Option<Bytes>, edit: Edit)

  datatype Outcome = Succeeded | Rejected | Raised

  datatype Pc =
    | FirstRead
    | OpenTemp
    | Writing(written: nat)
    | SecondRead
    | Committing
    | Unlinking
    | FinalRead
    | CleaningUp(outcome: Outcome)
    | Finished(committed: bool, outcome: Outcome)

  /** One call in progress. `raced` records a change by somebody else since the second revision read. */
  datatype Attempt = Attempt(
    id: nat, request: Request, locking: bool, pc: Pc, create: bool, temp: Inode, raced: bool)

  datatype Commit =
    | ByServer(id: nat, request: Request, linked: bool, raced: bool, before: Option<Bytes>, after: Option<Bytes>)
    | ByOutsider(before: Option<Bytes>, after: Option<Bytes>)

  /** `leaked` holds the temporary names whose unlink failed. */
  datatype World = World(
    leaf: Option<Inode>,
    store: map<Inode, Bytes>,
    temps: set<Inode>,
    lock: Option<Pid>,
    calls: map<Pid, Attempt>,
    log: seq<Commit>,
    leaked: set<Inode>,
    next: nat)

  datatype Step =
    | Start(p: Pid, request: Request, locking: bool)
    | ReadFirst(p: Pid)
    | CreateTemp(p: Pid)
    | WriteSome(p: Pid, count: nat)
    | Close(p: Pid)
    | ReadSecond(p: Pid)
    | Link(p: Pid)
    | Rename(p: Pid)
    | UnlinkTemp(p: Pid, ok: bool)
    | ReadFinal(p: Pid)
    | Raise(p: Pid)
    | CleanUp(p: Pid, ok: bool)
    | Return(p: Pid)
    | OutsideWrite(content: Bytes)
    | OutsideDelete

  function Content(w: World): Option<Bytes> {
    if w.leaf.Some? && w.leaf.value in w.store then Some(w.store[w.leaf.value]) else None
  }

  function Initial(content: Option<Bytes>): World {
    match content
    case None => World(None, map[], {}, None, map[], [], {}, 0)
    case Some(c) => World(Some(0), map[0 := c], {}, None, map[], [], {}, 1)
  }

  predicate HasTemp(pc: Pc) {
    pc.Writing? || pc.SecondRead? || pc.Committing? || pc.Unlinking? || pc.CleaningUp?
  }

  predicate Published(pc: Pc) {
    pc.Unlinking? || pc.FinalRead? || (pc.Finished? && pc.committed)
  }

  predicate Ready(w: World, p: Pid, pc: Pc) {
    p in w.calls && w.calls[p].pc == pc
  }

  predicate Enabled(w: World, s: Step) {
    match s
    case Start(p, _, locking) => p !in w.calls && (locking ==> w.lock.None?)
    case ReadFirst(p) => Ready(w, p, FirstRead)
    case CreateTemp(p) => Ready(w, p, OpenTemp)
    case WriteSome(p, count) =>
      p in w.calls && w.calls[p].pc.Writing? && 0 < count <= |w.calls[p].request.data| - w.calls[p].pc.written
    case Close(p) => p in w.calls && w.calls[p].pc == Writing(|w.calls[p].request.data|)
    case ReadSecond(p) => Ready(w, p, SecondRead)
    case Link(p) => Ready(w, p, Committing) && w.calls[p].create
    case Rename(p) => Ready(w, p, Committing) && !w.calls[p].create
    case UnlinkTemp(p, _) => Ready(w, p, Unlinking)
    case ReadFinal(p) => Ready(w, p, FinalRead)
    case Raise(p) => p in w.calls && !w.calls[p].pc.Finished? && !w.calls[p].pc.CleaningUp?
    case CleanUp(p, _) => p in w.calls && w.calls[p].pc.CleaningUp?
    case Return(p) => p in w.calls && w.calls[p].pc.Finished?
    case OutsideWrite(_) => true
    case OutsideDelete => w.leaf.Some?
  }

  function At(w: World, p: Pid, pc: Pc): World
    requires p in w.calls
  {
    w.(calls := w.calls[p := w.calls[p].(pc := pc)])
  }

  /** Everybody between the second read and the commit has now been overtaken. */
  function Overtaken(calls: map<Pid, Attempt>): map<Pid, Attempt> {
    map p | p in calls :: calls[p].(raced := true)
  }

  /** The target is replaced by `leaf`, and the change is recorded. */
  function Replace(w: World, leaf: Option<Inode>, commit: Commit): World {
    w.(leaf := leaf, calls := Overtaken(w.calls), log := w.log + [commit])
  }

  function Accepts(current: Option<Bytes>, request: Request, hash: Hash): bool {
    && !(request.createOnly && current.Some?)
    && (request.expected.Some? ==> Holds(current, request.expected.value, hash))
  }

  function Apply(w: World, s: Step, hash: Hash): World
    requires Enabled(w, s)
  {
    match s
    case Start(p, request, locking) =>
      w.(calls := w.calls[p := Attempt(w.next, request, locking, FirstRead, false, 0, false)],
         lock := if locking then Some(p) else w.lock,
         next := w.next + 1)
    case ReadFirst(p) =>
      var a := w.calls[p];
      if !Accepts(Content(w), a.request, hash) then At(w, p, Finished(false, Rejected))
      else w.(calls := w.calls[p := a.(pc := OpenTemp, create := a.request.createOnly || Content(w).None?)])
    case CreateTemp(p) =>
      w.(calls := w.calls[p := w.calls[p].(pc := Writing(0), temp := w.next)],
         store := w.store[w.next := []],
         temps := w.temps + {w.next},
         next := w.next + 1)
    case WriteSome(p, count) =>
      var a := w.calls[p];
      w.(calls := w.calls[p := a.(pc := Writing(a.pc.written + count))],
         store := w.store[a.temp := a.request.data[..a.pc.written + count]])
    case Close(p) => At(w, p, SecondRead)
    case ReadSecond(p) =>
      var a := w.calls[p];
      var refuse := if a.create then Content(w).Some?
                    else a.request.expected.Some? && !Holds(Content(w), a.request.expected.value, hash);
      w.(calls := w.calls[p := a.(pc := if refuse then CleaningUp(Rejected) else Committing, raced := false)])
    case Link(p) =>
      var a := w.calls[p];
      if w.leaf.Some? then At(w, p, CleaningUp(Rejected))
      else
        var commit := ByServer(a.id, a.request, true, a.raced, Content(w), Some(a.request.data));
        At(Replace(w, Some(a.temp), commit), p, Unlinking)
    case Rename(p) =>
      var a := w.calls[p];
      var commit := ByServer(a.id, a.request, false, a.raced, Content(w), Some(a.request.data));
      At(Replace(w, Some(a.temp), commit), p, FinalRead).(temps := w.temps - {a.temp})
    case UnlinkTemp(p, ok) =>
      if ok then At(w, p, FinalRead).(temps := w.temps - {w.calls[p].temp})
      else At(w, p, Finished(true, Raised)).(leaked := w.leaked + {w.calls[p].temp})
    case ReadFinal(p) => At(w, p, Finished(true, if Content(w).Some? then Succeeded else Raised))
    case Raise(p) =>
      var a := w.calls[p];
      if Published(a.pc)
      then At(w, p, Finished(true, Raised)).(leaked := if a.pc.Unlinking? then w.leaked + {a.temp} else w.leaked)
      else At(w, p, if HasTemp(a.pc) then CleaningUp(Raised) else Finished(false, Raised))
    case CleanUp(p, ok) =>
      var a := w.calls[p];
      if ok then At(w, p, Finished(false, a.pc.outcome)).(temps := w.temps - {a.temp})
      else At(w, p, Finished(false, Raised)).(leaked := w.leaked + {a.temp})
    case Return(p) =>
      w.(calls := w.calls - {p}, lock := if w.calls[p].locking then None else w.lock)
    case OutsideWrite(content) =>
      Replace(w, Some(w.next), ByOutsider(Content(w), Some(content)))
        .(store := w.store[w.next := content], next := w.next + 1)
    case OutsideDelete => Replace(w, None, ByOutsider(Content(w), None))
  }

  // ---------------------------------------------------------------------------------------
  // Runs

  ghost predicate Possible(w: World, steps: seq<Step>, hash: Hash)
    decreases |steps|
  {
    steps == [] || (Enabled(w, steps[0]) && Possible(Apply(w, steps[0], hash), steps[1..], hash))
  }

  ghost function After(w: World, steps: seq<Step>, hash: Hash): World
    requires Possible(w, steps, hash)
    decreases |steps|
  {
    if steps == [] then w else After(Apply(w, steps[0], hash), steps[1..], hash)
  }

  // ---------------------------------------------------------------------------------------
  // What every step keeps

  /** Names refer to existing inodes. */
  ghost predicate SoundStore(w: World) {
    && (forall i :: i in w.store ==> i < w.next)
    && (w.leaf.Some? ==> w.leaf.value in w.store)
  }

  ghost predicate SoundCall(w: World, p: Pid, hash: Hash)
    requires p in w.calls
  {
    var a := w.calls[p];
    && a.id < w.next
    && (a.locking ==> w.lock == Some(p))
    && (HasTemp(a.pc) ==> a.temp in w.store && a.temp in w.temps)
    && (HasTemp(a.pc) && !a.pc.Unlinking? ==> w.leaf != Some(a.temp))
    && (a.pc.Writing? ==> a.pc.written <= |a.request.data| && w.store[a.temp] == a.request.data[..a.pc.written])
    && (a.pc.SecondRead? || a.pc.Committing? || a.pc.Unlinking? ==> w.store[a.temp] == a.request.data)
    && (a.pc.OpenTemp? || HasTemp(a.pc) ==>
          (a.request.createOnly ==> a.create) && (a.request.expected.Some? ==> !a.create))
    && (a.pc.Committing? && !a.create && !a.raced && a.request.expected.Some? ==>
          Holds(Content(w), a.request.expected.value, hash))
    && (a.pc.CleaningUp? ==> !a.pc.outcome.Succeeded?)
    && (a.pc.Finished? ==> (a.pc.outcome.Succeeded? ==> a.pc.committed) && (a.pc.outcome.Rejected? ==> !a.pc.committed))
  }

  ghost predicate InUse(w: World, t: Inode) {
    exists p :: p in w.calls && HasTemp(w.calls[p].pc) && w.calls[p].temp == t
  }

  /** No two calls write to one temporary file, and every temporary name is in use or was leaked. */
  ghost predicate SoundTemps(w: World) {
    && (forall p, q :: p in w.calls && q in w.calls && p != q && HasTemp(w.calls[p].pc) && HasTemp(w.calls[q].pc)
          ==> w.calls[p].temp != w.calls[q].temp)
    && (forall t :: t in w.temps ==> t < w.next && (t in w.leaked || InUse(w, t)))
    && (forall p :: p in w.calls && HasTemp(w.calls[p].pc) ==> w.calls[p].temp !in w.leaked)
    && (forall t :: t in w.leaked ==> t < w.next)
  }

  /** What a recorded commit replaced. Only a commit that was overtaken may have replaced something else. */
  ghost predicate SoundCommit(c: Commit, hash: Hash) {
    c.ByServer? ==>
      && c.after == Some(c.request.data)
      && (c.linked ==> c.before.None?)
      && (c.request.createOnly ==> c.linked && c.request.expected.None?)
      && (c.request.expected.Some? && !c.raced ==> Holds(c.before, c.request.expected.value, hash))
  }

  /** The log is a chain from the initial content to the present one, with one entry per commit. */
  ghost predicate SoundLog(w: World, initial: Option<Bytes>, hash: Hash) {
    && (forall i :: 0 <= i < |w.log| ==> SoundCommit(w.log[i], hash))
    && (forall i :: 0 <= i < |w.log| - 1 ==> w.log[i].after == w.log[i + 1].before)
    && (if w.log == [] then Content(w) == initial
        else w.log[0].before == initial && w.log[|w.log| - 1].after == Content(w))
  }

  ghost predicate Logged(w: World, id: nat) {
    exists i :: 0 <= i < |w.log| && w.log[i].ByServer? && w.log[i].id == id
  }

  /** A call has committed exactly when the log says so, and no call commits twice. */
  ghost predicate SoundIds(w: World) {
    && (forall p :: p in w.calls ==> (Logged(w, w.calls[p].id) <==> Published(w.calls[p].pc)))
    && (forall p, q :: p in w.calls && q in w.calls && p != q ==> w.calls[p].id != w.calls[q].id)
    && (forall i :: 0 <= i < |w.log| && w.log[i].ByServer? ==> w.log[i].id < w.next)
    && (forall i, j :: 0 <= i < j < |w.log| && w.log[i].ByServer? && w.log[j].ByServer? ==> w.log[i].id != w.log[j].id)
  }

  ghost predicate Inv(w: World, initial: Option<Bytes>, hash: Hash) {
    && SoundStore(w)
    && SoundCalls(w, hash)
    && SoundTemps(w)
    && SoundLog(w, initial, hash)
    && SoundIds(w)
  }

  ghost predicate SoundCalls(w: World, hash: Hash) {
    forall p :: p in w.calls ==> SoundCall(w, p, hash)
  }

  lemma StepKeepsStore(w: World, s: Step, hash: Hash)
    requires SoundStore(w) && SoundCalls(w, hash) && Enabled(w, s)
    ensures SoundStore(Apply(w, s, hash))
  {
    if !Outside(s) && s.p in w.calls {
      assert SoundCall(w, s.p, hash);
    }
  }

  predicate Outside(s: Step) {
    s.OutsideWrite? || s.OutsideDelete?
  }

  /** The step changes the target, as seen by everybody else. */
  predicate Commits(w: World, s: Step) {
    Outside(s) || s.Rename? || (s.Link? && w.leaf.None?)
  }

  /** What a step leaves alone of a call that is not the one taking it. */
  ghost predicate Undisturbed(w: World, v: World, q: Pid)
    requires q in w.calls
  {
    var a := w.calls[q];
    && q in v.calls && v.next >= w.next
    && ((v.calls[q] == a && v.leaf == w.leaf && Content(v) == Content(w)) || v.calls[q] == a.(raced := true))
    && (a.locking ==> v.lock == w.lock)
    && (HasTemp(a.pc) ==>
          a.temp in w.store && a.temp in v.store && a.temp in v.temps && v.store[a.temp] == w.store[a.temp])
    && (HasTemp(a.pc) && !a.pc.Unlinking? ==> v.leaf != Some(a.temp))
  }

  lemma OthersKeepTheirRecord(w: World, s: Step, hash: Hash, q: Pid)
    requires SoundStore(w) && Enabled(w, s) && q in w.calls && (Outside(s) || s.p != q)
    requires Outside(s) || s.p !in w.calls || SoundCall(w, s.p, hash)
    ensures var v := Apply(w, s, hash);
            && q in v.calls && v.next >= w.next
            && ((v.calls[q] == w.calls[q] && v.leaf == w.leaf && Content(v) == Content(w))
                || v.calls[q] == w.calls[q].(raced := true))
  {
  }

  lemma OthersKeepTheirFile(w: World, s: Step, hash: Hash, q: Pid)
    requires SoundStore(w) && SoundTemps(w) && Enabled(w, s) && q in w.calls && (Outside(s) || s.p != q)
    requires SoundCall(w, q, hash) && (Outside(s) || s.p !in w.calls || SoundCall(w, s.p, hash))
    ensures var a, v := w.calls[q], Apply(w, s, hash);
            && (a.locking ==> v.lock == w.lock)
            && (HasTemp(a.pc) ==> a.temp in v.store && a.temp in v.temps && v.store[a.temp] == w.store[a.temp])
            && (HasTemp(a.pc) && !a.pc.Unlinking? ==> v.leaf != Some(a.temp))
  {
  }

  lemma OthersAreUndisturbed(w: World, s: Step, hash: Hash, q: Pid)
    requires SoundStore(w) && SoundCalls(w, hash) && SoundTemps(w)
    requires Enabled(w, s) && q in w.calls && (Outside(s) || s.p != q)
    ensures Undisturbed(w, Apply(w, s, hash), q)
  {
    assert SoundCall(w, q, hash);
    OthersKeepTheirRecord(w, s, hash, q);
    OthersKeepTheirFile(w, s, hash, q);
  }

  lemma UndisturbedStaysSound(w: World, v: World, q: Pid, hash: Hash)
    requires q in w.calls && SoundCall(w, q, hash) && Undisturbed(w, v, q)
    ensures SoundCall(v, q, hash)
  {
  }

  lemma BuildingIsSound(w: World, s: Step, hash: Hash)
    requires SoundStore(w) && Enabled(w, s)
    requires s.Start? || s.ReadFirst? || s.CreateTemp? || s.WriteSome? || s.Close?
    requires !s.Start? ==> SoundCall(w, s.p, hash)
    ensures SoundCall(Apply(w, s, hash), s.p, hash)
  {
  }

  lemma CommittingIsSound(w: World, s: Step, hash: Hash)
    requires SoundStore(w) && Enabled(w, s)
    requires (s.ReadSecond? || s.Link? || s.Rename?) && SoundCall(w, s.p, hash)
    ensures SoundCall(Apply(w, s, hash), s.p, hash)
  {
  }

  lemma LeavingIsSound(w: World, s: Step, hash: Hash)
    requires SoundStore(w) && Enabled(w, s)
    requires (s.ReadFinal? || s.CleanUp?) && SoundCall(w, s.p, hash)
    ensures SoundCall(Apply(w, s, hash), s.p, hash)
  {
  }

  lemma FailingIsSound(w: World, s: Step, hash: Hash)
    requires SoundStore(w) && Enabled(w, s)
    requires s.Raise? && SoundCall(w, s.p, hash)
    ensures SoundCall(Apply(w, s, hash), s.p, hash)
  {
  }

  lemma UnlinkingIsSound(w: World, s: Step, hash: Hash)
    requires SoundStore(w) && Enabled(w, s)
    requires s.UnlinkTemp? && SoundCall(w, s.p, hash)
    ensures SoundCall(Apply(w, s, hash), s.p, hash)
  {
  }

  lemma ReturnLeaves(w: World, s: Step, hash: Hash)
    requires Enabled(w, s) && s.Return?
    ensures s.p !in Apply(w, s, hash).calls
  {
  }

  lemma OthersStay(w: World, s: Step, hash: Hash, p: Pid)
    requires Enabled(w, s) && (Outside(s) || s.p != p) && p in Apply(w, s, hash).calls
    ensures p in w.calls
  {
    hide Accepts, Holds, Content;
  }

  lemma StepKeepsCall(w: World, s: Step, hash: Hash, p: Pid)
    requires SoundStore(w) && SoundCalls(w, hash) && SoundTemps(w) && Enabled(w, s) && p in Apply(w, s, hash).calls
    ensures SoundCall(Apply(w, s, hash), p, hash)
  {
    hide Apply, SoundCall, SoundTemps;
    if Outside(s) || s.p != p {
      OthersStay(w, s, hash, p);
      OthersAreUndisturbed(w, s, hash, p);
      UndisturbedStaysSound(w, Apply(w, s, hash), p, hash);
    } else {
      match s
      case Start(_, _, _) => BuildingIsSound(w, s, hash);
      case ReadFirst(_) => BuildingIsSound(w, s, hash);
      case CreateTemp(_) => BuildingIsSound(w, s, hash);
      case WriteSome(_, _) => BuildingIsSound(w, s, hash);
      case Close(_) => BuildingIsSound(w, s, hash);
      case ReadSecond(_) => CommittingIsSound(w, s, hash);
      case Link(_) => CommittingIsSound(w, s, hash);
      case Rename(_) => CommittingIsSound(w, s, hash);
      case UnlinkTemp(_, _) => UnlinkingIsSound(w, s, hash);
      case Raise(_) => FailingIsSound(w, s, hash);
      case _ =>
        if s.Return? {
          ReturnLeaves(w, s, hash);
        }
        LeavingIsSound(w, s, hash);
    }
  }

  /** How a step changes who holds which temporary name. */
  ghost predicate TempEffect(w: World, v: World, actor: Option<Pid>) {
    && (forall q :: q in w.calls && actor != Some(q) ==>
          q in v.calls && v.calls[q].pc == w.calls[q].pc && v.calls[q].temp == w.calls[q].temp)
    && (forall q :: q in v.calls && actor != Some(q) ==> q in w.calls)
    && v.next >= w.next
    && (actor.None? ==> v.temps == w.temps && v.leaked == w.leaked)
    && (actor.Some? ==> OwnTempEffect(w, v, actor.value))
  }

  ghost predicate OwnTempEffect(w: World, v: World, p: Pid) {
    var held := p in w.calls && HasTemp(w.calls[p].pc);
    var holds := p in v.calls && HasTemp(v.calls[p].pc);
    && (held && holds ==> v.calls[p].temp == w.calls[p].temp && v.temps == w.temps && v.leaked == w.leaked)
    && (held && !holds ==>
          || (v.temps == w.temps - {w.calls[p].temp} && v.leaked == w.leaked)
          || (v.temps == w.temps && v.leaked == w.leaked + {w.calls[p].temp}))
    && (!held && holds ==>
          v.calls[p].temp == w.next && v.next > w.next && v.temps == w.temps + {w.next} && v.leaked == w.leaked)
    && (!held && !holds ==> v.temps == w.temps && v.leaked == w.leaked)
  }

  function Actor(s: Step): Option<Pid> {
    if Outside(s) then None else Some(s.p)
  }

  lemma BystandersKeepTheirPlace(w: World, s: Step, hash: Hash, q: Pid)
    requires Enabled(w, s) && Actor(s) != Some(q)
    ensures var v := Apply(w, s, hash);
            && (q in v.calls <==> q in w.calls)
            && (q in w.calls ==> v.calls[q].pc == w.calls[q].pc && v.calls[q].temp == w.calls[q].temp
                                 && v.calls[q].id == w.calls[q].id)
  {
  }

  lemma BuildingHasTempEffect(w: World, s: Step, hash: Hash)
    requires Enabled(w, s) && (s.Start? || s.ReadFirst? || s.CreateTemp? || s.WriteSome? || s.Close?)
    ensures OwnTempEffect(w, Apply(w, s, hash), s.p)
  {
  }

  lemma CommittingHasTempEffect(w: World, s: Step, hash: Hash)
    requires Enabled(w, s) && (s.ReadSecond? || s.Link? || s.Rename?)
    ensures OwnTempEffect(w, Apply(w, s, hash), s.p)
  {
  }

  lemma LeavingHasTempEffect(w: World, s: Step, hash: Hash)
    requires Enabled(w, s) && (s.UnlinkTemp? || s.ReadFinal? || s.Raise? || s.CleanUp? || s.Return?)
    ensures OwnTempEffect(w, Apply(w, s, hash), s.p)
  {
  }

  lemma StepHasTempEffect(w: World, s: Step, hash: Hash)
    requires Enabled(w, s)
    ensures TempEffect(w, Apply(w, s, hash), Actor(s))
  {
    forall q: Pid | Actor(s) != Some(q) {
      BystandersKeepTheirPlace(w, s, hash, q);
    }
    match s
    case Start(_, _, _) => BuildingHasTempEffect(w, s, hash);
    case ReadFirst(_) => BuildingHasTempEffect(w, s, hash);
    case CreateTemp(_) => BuildingHasTempEffect(w, s, hash);
    case WriteSome(_, _) => BuildingHasTempEffect(w, s, hash);
    case Close(_) => BuildingHasTempEffect(w, s, hash);
    case ReadSecond(_) => CommittingHasTempEffect(w, s, hash);
    case Link(_) => CommittingHasTempEffect(w, s, hash);
    case Rename(_) => CommittingHasTempEffect(w, s, hash);
    case OutsideWrite(_) =>
    case OutsideDelete =>
    case _ => LeavingHasTempEffect(w, s, hash);
  }

  lemma TempEffectKeepsSound(w: World, v: World, actor: Option<Pid>)
    requires SoundTemps(w) && TempEffect(w, v, actor)
    requires forall p :: p in w.calls && HasTemp(w.calls[p].pc) ==> w.calls[p].temp in w.temps
    ensures SoundTemps(v)
  {
    forall t | t in v.temps && t !in v.leaked ensures t < v.next && InUse(v, t) {
      if t in w.temps {
        var p :| p in w.calls && HasTemp(w.calls[p].pc) && w.calls[p].temp == t;
        assert p in v.calls && HasTemp(v.calls[p].pc) && v.calls[p].temp == t;
      } else {
        var p := actor.value;
        assert p in v.calls && HasTemp(v.calls[p].pc) && v.calls[p].temp == t;
      }
    }
  }

  /** A step appends to the log exactly when it changes the target, and then it is the acting call's commit. */
  lemma StepLogs(w: World, s: Step, hash: Hash)
    requires SoundStore(w) && Enabled(w, s) && (Outside(s) || s.p !in w.calls || SoundCall(w, s.p, hash))
    ensures var v := Apply(w, s, hash);
            if Commits(w, s) then
              && v.log == w.log + [v.log[|w.log|]]
              && SoundCommit(v.log[|w.log|], hash)
              && v.log[|w.log|].before == Content(w) && v.log[|w.log|].after == Content(v)
              && (if Outside(s) then v.log[|w.log|].ByOutsider?
                  else v.log[|w.log|].ByServer? && v.log[|w.log|].id == w.calls[s.p].id
                       && v.log[|w.log|].request == w.calls[s.p].request && v.log[|w.log|].raced == w.calls[s.p].raced)
            else v.log == w.log && Content(v) == Content(w)
  {
  }

  lemma StepKeepsLog(w: World, initial: Option<Bytes>, s: Step, hash: Hash)
    requires SoundStore(w) && SoundCalls(w, hash) && SoundLog(w, initial, hash) && Enabled(w, s)
    ensures SoundLog(Apply(w, s, hash), initial, hash)
  {
    StepLogs(w, s, hash);
  }

  /** How a step changes which calls count as having committed. */
  ghost predicate PublishEffect(w: World, v: World, s: Step) {
    && (forall q :: q in w.calls && Actor(s) != Some(q) ==>
          q in v.calls && v.calls[q].pc == w.calls[q].pc && v.calls[q].id == w.calls[q].id)
    && (forall q :: q in v.calls && Actor(s) != Some(q) ==> q in w.calls)
    && v.next >= w.next
    && (!Outside(s) ==> OwnPublishEffect(w, v, s))
  }

  ghost predicate OwnPublishEffect(w: World, v: World, s: Step)
    requires !Outside(s)
  {
    && (s.p in v.calls ==>
          if s.p in w.calls
          then v.calls[s.p].id == w.calls[s.p].id
               && (Published(v.calls[s.p].pc) <==> Published(w.calls[s.p].pc) || Commits(w, s))
          else v.calls[s.p].id == w.next < v.next && !Published(v.calls[s.p].pc))
    && (Commits(w, s) ==> s.p in w.calls && s.p in v.calls && !Published(w.calls[s.p].pc))
  }

  lemma StepHasOwnPublishEffect(w: World, s: Step, hash: Hash)
    requires Enabled(w, s) && !Outside(s)
    ensures OwnPublishEffect(w, Apply(w, s, hash), s)
  {
  }

  lemma StepHasPublishEffect(w: World, s: Step, hash: Hash)
    requires Enabled(w, s)
    ensures PublishEffect(w, Apply(w, s, hash), s)
  {
    forall q: Pid | Actor(s) != Some(q) {
      BystandersKeepTheirPlace(w, s, hash, q);
    }
    if !Outside(s) {
      StepHasOwnPublishEffect(w, s, hash);
    }
  }

  lemma StepKeepsIds(w: World, s: Step, hash: Hash)
    requires SoundStore(w) && SoundCalls(w, hash) && SoundIds(w) && Enabled(w, s)
    ensures SoundIds(Apply(w, s, hash))
  {
    StepLogs(w, s, hash);
    StepHasPublishEffect(w, s, hash);
    assert forall p :: p in w.calls ==> SoundCall(w, p, hash) && w.calls[p].id < w.next;
    IdsFollow(w, Apply(w, s, hash), s);
  }

  /** The log of `v` is the log of `w`, with the commit of `s` behind it if there is one. */
  ghost predicate LogFollows(w: World, v: World, s: Step) {
    if Commits(w, s) then
      && |v.log| == |w.log| + 1 && v.log[..|w.log|] == w.log
      && (if Outside(s) then v.log[|w.log|].ByOutsider?
          else v.log[|w.log|].ByServer? && s.p in w.calls && v.log[|w.log|].id == w.calls[s.p].id)
    else v.log == w.log
  }

  lemma LoggedGrows(w: World, v: World, s: Step, id: nat)
    requires LogFollows(w, v, s)
    ensures Logged(v, id) <==> Logged(w, id) || (Commits(w, s) && !Outside(s) && w.calls[s.p].id == id)
  {
    if Logged(w, id) {
      var i :| 0 <= i < |w.log| && w.log[i].ByServer? && w.log[i].id == id;
      assert v.log[i] == v.log[..|w.log|][i];
    }
    if Logged(v, id) {
      var i :| 0 <= i < |v.log| && v.log[i].ByServer? && v.log[i].id == id;
      assert i < |w.log| ==> v.log[i] == w.log[i];
    }
    if Commits(w, s) && !Outside(s) {
      assert v.log[|w.log|].ByServer?;
    }
  }

  lemma CallIdsFollow(w: World, v: World, s: Step)
    requires SoundIds(w) && PublishEffect(w, v, s) && LogFollows(w, v, s)
    requires forall p :: p in w.calls ==> w.calls[p].id < w.next
    ensures forall p :: p in v.calls ==> (Logged(v, v.calls[p].id) <==> Published(v.calls[p].pc))
    ensures forall p, q :: p in v.calls && q in v.calls && p != q ==> v.calls[p].id != v.calls[q].id
  {
    forall p | p in v.calls ensures Logged(v, v.calls[p].id) <==> Published(v.calls[p].pc) {
      LoggedGrows(w, v, s, v.calls[p].id);
    }
  }

  lemma IdsFollow(w: World, v: World, s: Step)
    requires SoundIds(w) && PublishEffect(w, v, s) && LogFollows(w, v, s)
    requires forall p :: p in w.calls ==> w.calls[p].id < w.next
    ensures SoundIds(v)
  {
    CallIdsFollow(w, v, s);
    LogIdsFollow(w, v, s);
  }

  lemma LogIdsFollow(w: World, v: World, s: Step)
    requires SoundIds(w) && PublishEffect(w, v, s) && LogFollows(w, v, s)
    requires forall p :: p in w.calls ==> w.calls[p].id < w.next
    ensures forall i :: 0 <= i < |v.log| && v.log[i].ByServer? ==> v.log[i].id < v.next
    ensures forall i, j :: 0 <= i < j < |v.log| && v.log[i].ByServer? && v.log[j].ByServer? ==>
              v.log[i].id != v.log[j].id
  {
    if Commits(w, s) && !Outside(s) {
      assert !Logged(w, w.calls[s.p].id);
    }
    assert forall i :: 0 <= i < |w.log| ==> v.log[i] == w.log[i];
  }

  lemma StepKeepsInv(w: World, initial: Option<Bytes>, s: Step, hash: Hash)
    requires Inv(w, initial, hash) && Enabled(w, s)
    ensures Inv(Apply(w, s, hash), initial, hash)
  {
    var v := Apply(w, s, hash);
    StepKeepsStore(w, s, hash);
    forall p | p in v.calls ensures SoundCall(v, p, hash) {
      StepKeepsCall(w, s, hash, p);
    }
    StepHasTempEffect(w, s, hash);
    assert forall p :: p in w.calls ==> SoundCall(w, p, hash);
    TempEffectKeepsSound(w, v, Actor(s));
    StepKeepsLog(w, initial, s, hash);
    StepKeepsIds(w, s, hash);
  }

  lemma {:induction false} RunKeepsInv(w: World, initial: Option<Bytes>, steps: seq<Step>, hash: Hash)
    requires Inv(w, initial, hash) && Possible(w, steps, hash)
    ensures Inv(After(w, steps, hash), initial, hash)
    decreases |steps|
  {
    if steps != [] {
      StepKeepsInv(w, initial, steps[0], hash);
      RunKeepsInv(Apply(w, steps[0], hash), initial, steps[1..], hash);
    }
  }

  lemma InitialIsSound(content: Option<Bytes>, hash: Hash)
    ensures Inv(Initial(content), content, hash) && Content(Initial(content)) == content
  {
  }
}
