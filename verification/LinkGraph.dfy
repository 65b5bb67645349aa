/**
 * get_link_graph (src/obsidian_mcp/tools/query.py): a breadth-first walk over the index that marks a
 * note when it is taken from the queue, lets a note be queued several times, stops below a depth and
 * neither reports nor crosses notes outside the caller's read scope.
 */
module LinkGraph {
  import opened NoteIndex
  import opened VaultIndex

  datatype Kind = Outgoing | Incoming

  datatype Edge = Edge(from: string, to: string, kind: Kind)

  datatype Item = Item(node: string, level: nat)

  /** `index.resolve_alias(target) or target`. */
  function Resolved(ix: Index, s: Settings, target: string): string {
    var key := s.lower(s.stem(target));
    if key in ix.aliases && ix.aliases[key] != "" then ix.aliases[key] else target
  }

  /** One walk: the index, the caller's scope, and which links to follow. */
  datatype Walk = Walk(ix: Index, s: Settings, allows: string -> bool, direction: string) {
    predicate FollowsOut() { direction in {"outgoing", "both"} }

    predicate FollowsIn() { direction in {"incoming", "both"} }

    function Out(u: string): set<string> {
      if !FollowsOut() then {}
      else set t | t in Get(ix.outlinks, u) && allows(Resolved(ix, s, t)) :: Resolved(ix, s, t)
    }

    function In(u: string): set<string> {
      if !FollowsIn() then {} else set q | q in Backlinks(ix, s, u) && allows(q)
    }

    function Next(u: string): set<string> { Out(u) + In(u) }

    /** Every name the walk can meet. */
    ghost function Universe(root: string): set<string> {
      {root} + ix.aliases.Values
      + (set u, t | u in ix.outlinks && t in ix.outlinks[u] :: t)
      + (set k, q | k in ix.backlinks && q in ix.backlinks[k] :: q)
    }

    /** The notes at distance at most `n` from the root, through notes in scope. */
    ghost function Within(root: string, n: nat): set<string> {
      if !allows(root) then {}
      else if n == 0 then {root}
      else Within(root, n - 1) + set u, v | u in Within(root, n - 1) && v in Next(u) :: v
    }

    /** What a walk of this depth visits. */
    ghost function Reached(root: string, depth: int): set<string> {
      if depth < 0 then {} else Within(root, depth)
    }

    lemma NextStaysInside(root: string, u: string)
      ensures Next(u) <= Universe(root)
      ensures forall v :: v in Next(u) ==> allows(v)
    {
      forall v | v in Out(u) ensures v in Universe(root) {
        var t :| t in Get(ix.outlinks, u) && v == Resolved(ix, s, t);
        assert u in ix.outlinks && t in ix.outlinks[u];
        var key := s.lower(s.stem(t));
        assert key in ix.aliases ==> ix.aliases[key] in ix.aliases.Values;
      }
    }

    lemma {:induction false} WithinAllows(root: string, n: nat)
      ensures forall v :: v in Within(root, n) ==> allows(v)
    {
      if allows(root) && n > 0 {
        WithinAllows(root, n - 1);
        forall u | u in Within(root, n - 1) {
          NextStaysInside(root, u);
        }
      }
    }
  }

  lemma {:induction false} WithinGrows(w: Walk, root: string, m: nat, n: nat)
    requires m <= n
    ensures w.Within(root, m) <= w.Within(root, n)
    decreases n
  {
    hide Walk.Next, Walk.Out, Walk.In, Resolved, Backlinks;
    if m < n {
      WithinGrows(w, root, m, n - 1);
      assert w.Within(root, n - 1) <= w.Within(root, n);
    }
  }

  // ---------------------------------------------------------------------------------------
  // The invariant of the walk

  /** The queue is ordered by level and spans at most two levels; what waits in it is that close. */
  ghost predicate SoundQueue(w: Walk, root: string, queue: seq<Item>) {
    && Ordered(queue)
    && (forall item :: item in queue ==> item == Item(root, 0) || item.node in w.Within(root, item.level))
  }

  /** Visited notes are that close, and were taken before anything that still waits. */
  ghost predicate SoundVisits(w: Walk, root: string, depth: int, level: map<string, nat>, queue: seq<Item>) {
    forall u :: u in level ==>
      && level[u] <= depth && u in w.Within(root, level[u])
      && (queue != [] ==> level[u] <= queue[0].level)
  }

  ghost predicate Due(v: string, n: nat, level: map<string, nat>, queue: seq<Item>) {
    (v in level && level[v] <= n) || exists item :: item in queue && item.node == v && item.level <= n
  }

  /** Each link of a visited note that is not too deep has been followed or waits to be. */
  ghost predicate NothingForgotten(w: Walk, root: string, depth: int, level: map<string, nat>, queue: seq<Item>) {
    && (forall u, v :: u in level && level[u] < depth && v in w.Next(u) ==> Due(v, level[u] + 1, level, queue))
    && (w.allows(root) && depth >= 0 ==> Due(root, 0, level, queue))
  }

  ghost predicate WalkInv(w: Walk, root: string, depth: int, level: map<string, nat>, queue: seq<Item>) {
    SoundQueue(w, root, queue) && SoundVisits(w, root, depth, level, queue)
    && NothingForgotten(w, root, depth, level, queue)
  }

  lemma SkipKeepsInv(w: Walk, root: string, depth: int, level: map<string, nat>, queue: seq<Item>)
    requires queue != [] && WalkInv(w, root, depth, level, queue)
    requires queue[0].node in level || queue[0].level > depth || !w.allows(queue[0].node)
    ensures WalkInv(w, root, depth, level, queue[1..])
  {
    var head, rest := queue[0], queue[1..];
    assert queue == [head] + rest;
    forall v, n: nat | Due(v, n, level, queue) && n <= depth && w.allows(v) ensures Due(v, n, level, rest) {
    }
    forall u, v | u in level && level[u] < depth && v in w.Next(u) ensures Due(v, level[u] + 1, level, rest) {
      w.NextStaysInside(root, u);
    }
  }

  ghost predicate Ordered(queue: seq<Item>) {
    forall i, j :: 0 <= i < j < |queue| ==> queue[i].level <= queue[j].level <= queue[0].level + 1
  }

  lemma AppendingKeepsOrder(queue: seq<Item>, added: seq<Item>)
    requires queue != [] && Ordered(queue)
    requires forall item :: item in added ==> item.level == queue[0].level + 1
    ensures Ordered(queue[1..] + added)
    ensures queue[1..] + added != [] ==> queue[0].level <= (queue[1..] + added)[0].level
  {
    var rest := queue[1..];
    assert forall i :: 0 <= i < |rest| ==> rest[i] == queue[i + 1];
    assert forall i :: 0 <= i < |added| ==> added[i] in added;
  }

  lemma VisitKeepsQueue(w: Walk, root: string, depth: int, level: map<string, nat>, queue: seq<Item>, added: seq<Item>)
    requires queue != [] && SoundQueue(w, root, queue) && SoundVisits(w, root, depth, level, queue)
    requires queue[0].level <= depth && w.allows(queue[0].node)
    requires forall item :: item in added ==>
               item.level == queue[0].level + 1 && item.node in w.Next(queue[0].node)
    ensures SoundQueue(w, root, queue[1..] + added)
    ensures SoundVisits(w, root, depth, level[queue[0].node := queue[0].level], queue[1..] + added)
  {
    hide Walk.Next;
    var head := queue[0];
    assert head in queue && head.node in w.Within(root, head.level);
    AppendingKeepsOrder(queue, added);
    forall item | item in queue[1..] + added ensures item == Item(root, 0) || item.node in w.Within(root, item.level) {
      if item in queue[1..] {
        assert item in queue;
      }
    }
  }

  lemma VisitForgetsNothing(
      w: Walk, root: string, depth: int, level: map<string, nat>, queue: seq<Item>, added: seq<Item>)
    requires queue != [] && NothingForgotten(w, root, depth, level, queue) && queue[0].node !in level
    requires forall v :: v in w.Next(queue[0].node) && v !in level && v != queue[0].node ==>
               Item(v, queue[0].level + 1) in added
    requires SoundVisits(w, root, depth, level, queue)
    ensures NothingForgotten(w, root, depth, level[queue[0].node := queue[0].level], queue[1..] + added)
  {
    var head, rest := queue[0], queue[1..];
    var after, waiting := level[head.node := head.level], rest + added;
    forall v, n: nat | Due(v, n, level, queue) ensures Due(v, n, after, waiting) {
      DueMoves(v, n, level, queue, added);
    }
    forall u, v | u in after && after[u] < depth && v in w.Next(u) ensures Due(v, after[u] + 1, after, waiting) {
      if u == head.node && v !in after {
        assert Item(v, head.level + 1) in waiting;
      }
    }
  }

  lemma VisitKeepsInv(
      w: Walk, root: string, depth: int, level: map<string, nat>, queue: seq<Item>, added: seq<Item>)
    requires queue != [] && WalkInv(w, root, depth, level, queue)
    requires queue[0].node !in level && queue[0].level <= depth && w.allows(queue[0].node)
    requires forall item :: item in added ==>
               item.level == queue[0].level + 1 && item.node in w.Next(queue[0].node)
    requires forall v :: v in w.Next(queue[0].node) && v !in level && v != queue[0].node ==>
               Item(v, queue[0].level + 1) in added
    ensures WalkInv(w, root, depth, level[queue[0].node := queue[0].level], queue[1..] + added)
  {
    VisitKeepsQueue(w, root, depth, level, queue, added);
    VisitForgetsNothing(w, root, depth, level, queue, added);
  }

  lemma DueMoves(v: string, n: nat, level: map<string, nat>, queue: seq<Item>, added: seq<Item>)
    requires queue != [] && queue[0].node !in level && Due(v, n, level, queue)
    ensures Due(v, n, level[queue[0].node := queue[0].level], queue[1..] + added)
  {
    if !(v in level && level[v] <= n) {
      var item :| item in queue && item.node == v && item.level <= n;
      if item != queue[0] {
        assert item in queue[1..];
        assert item in queue[1..] + added;
      }
    }
  }

  /** When nothing waits any more, everything close enough has been visited, at its distance or earlier. */
  lemma {:induction false} NothingIsMissed(w: Walk, root: string, depth: int, level: map<string, nat>, n: nat)
    requires WalkInv(w, root, depth, level, []) && n <= depth
    ensures forall v :: v in w.Within(root, n) ==> v in level && level[v] <= n
  {
    hide Walk.Next, SoundQueue, SoundVisits;
    if w.allows(root) {
      if n == 0 {
        assert Due(root, 0, level, []);
      } else {
        NothingIsMissed(w, root, depth, level, n - 1);
        forall v | v in w.Within(root, n) ensures v in level && level[v] <= n {
          if v !in w.Within(root, n - 1) {
            var u :| u in w.Within(root, n - 1) && v in w.Next(u);
            assert Due(v, level[u] + 1, level, []);
          }
        }
      }
    }
  }

  // ---------------------------------------------------------------------------------------
  // The loops

  /** The edges one visit reports. */
  ghost function Incident(w: Walk, u: string): set<Edge> {
    (set v | v in w.Out(u) :: Edge(u, v, Outgoing)) + (set q | q in w.In(u) :: Edge(q, u, Incoming))
  }

  /** The two inner loops: report each allowed link of `u`, and queue its other end unless already visited. */
  method Visit(w: Walk, u: string, level: nat, visited: set<string>)
    returns (edges: seq<Edge>, added: seq<Item>)
    requires u in visited
    ensures Members(edges) == Incident(w, u)
    ensures forall item :: item in added ==> item.level == level + 1 && item.node in w.Next(u) - visited
    ensures forall v :: v in w.Next(u) && v !in visited ==> Item(v, level + 1) in added
  {
    edges, added := [], [];
    if w.FollowsOut() {
      edges, added := VisitOut(w, u, level, visited);
    }
    if w.FollowsIn() {
      var moreEdges, moreAdded := VisitIn(w, u, level, visited);
      assert Members(edges + moreEdges) == Members(edges) + Members(moreEdges);
      edges, added := edges + moreEdges, added + moreAdded;
    }
  }

  method VisitOut(w: Walk, u: string, level: nat, visited: set<string>)
    returns (edges: seq<Edge>, added: seq<Item>)
    requires w.FollowsOut()
    ensures Members(edges) == set v | v in w.Out(u) :: Edge(u, v, Outgoing)
    ensures forall item :: item in added <==> item.level == level + 1 && item.node in w.Out(u) - visited
  {
    edges, added := [], [];
    var todo := Get(w.ix.outlinks, u);
    ghost var seen: set<string> := {};
    while todo != {}
      invariant todo <= Get(w.ix.outlinks, u) && seen <= w.Out(u)
      invariant forall t :: t in Get(w.ix.outlinks, u) - todo && w.allows(Resolved(w.ix, w.s, t)) ==>
                  Resolved(w.ix, w.s, t) in seen
      invariant forall e :: e in edges <==> e.from == u && e.kind == Outgoing && e.to in seen
      invariant forall item :: item in added <==> item.level == level + 1 && item.node in seen - visited
      decreases todo
    {
      var t :| t in todo;
      todo := todo - {t};
      var v := Resolved(w.ix, w.s, t);
      if w.allows(v) {
        edges := edges + [Edge(u, v, Outgoing)];
        if v !in visited {
          added := added + [Item(v, level + 1)];
        }
        seen := seen + {v};
      }
    }
    assert seen == w.Out(u);
  }

  method VisitIn(w: Walk, u: string, level: nat, visited: set<string>)
    returns (edges: seq<Edge>, added: seq<Item>)
    requires w.FollowsIn()
    ensures Members(edges) == set q | q in w.In(u) :: Edge(q, u, Incoming)
    ensures forall item :: item in added <==> item.level == level + 1 && item.node in w.In(u) - visited
  {
    edges, added := [], [];
    var todo := w.In(u);
    while todo != {}
      invariant todo <= w.In(u)
      invariant forall e :: e in edges <==> e.to == u && e.kind == Incoming && e.from in w.In(u) - todo
      invariant forall item :: item in added <==>
                  item.level == level + 1 && item.node in w.In(u) - todo && item.node !in visited
      decreases todo
    {
      var q :| q in todo;
      edges := edges + [Edge(q, u, Incoming)];
      if q !in visited {
        added := added + [Item(q, level + 1)];
      }
      todo := todo - {q};
    }
  }

  /** `(edge["from"], edge["to"])`. */
  function Pair(e: Edge): (string, string) {
    (e.from, e.to)
  }

  /** No edge before number `k` joins the same two notes. */
  predicate First(edges: seq<Edge>, k: nat)
    requires k < |edges|
  {
    forall j :: 0 <= j < k ==> Pair(edges[j]) != Pair(edges[k])
  }

  /** The last loop: the first edge of each (from, to) pair is kept. */
  method Deduplicate(edges: seq<Edge>) returns (unique: seq<Edge>)
    ensures forall e :: e in unique <==> exists k :: 0 <= k < |edges| && edges[k] == e && First(edges, k)
    ensures forall e :: e in edges ==> exists d :: d in unique && Pair(d) == Pair(e)
    ensures forall i, j :: 0 <= i < j < |unique| ==> Pair(unique[i]) != Pair(unique[j])
  {
    hide Pair;
    unique := [];
    var seen: set<(string, string)> := {};
    for i := 0 to |edges|
      invariant forall e :: e in unique ==> Pair(e) in seen
      invariant forall e :: e in unique <==> exists k :: 0 <= k < i && edges[k] == e && First(edges, k)
      invariant forall key :: key in seen ==> exists d :: d in unique && Pair(d) == key
      invariant forall key :: key in seen <==> exists k :: 0 <= k < i && Pair(edges[k]) == key
      invariant forall k, j :: 0 <= k < j < |unique| ==> Pair(unique[k]) != Pair(unique[j])
    {
      var e := edges[i];
      assert First(edges, i) <==> Pair(e) !in seen;
      if Pair(e) !in seen {
        seen := seen + {Pair(e)};
        unique := unique + [e];
      }
    }
    assert forall e :: e in edges ==> Pair(e) in seen;
  }

  /** The edges of all visited notes. */
  ghost function AllIncident(w: Walk, us: set<string>): set<Edge> {
    set u, e | u in us && e in Incident(w, u) :: e
  }

  /** Notes at distance at most `n` come before all others. */
  ghost predicate NearFirst(w: Walk, root: string, nodes: seq<string>, n: nat) {
    forall i, j :: 0 <= i < j < |nodes| && nodes[j] in w.Within(root, n) ==> nodes[i] in w.Within(root, n)
  }

  /** The main loop: what is visited, in order of the visits, and every edge it reports. */
  method Explore(w: Walk, root: string, depth: int) returns (nodes: seq<string>, found: seq<Edge>)
    ensures Members(nodes) == w.Reached(root, depth)
    ensures forall i, j :: 0 <= i < j < |nodes| ==> nodes[i] != nodes[j]
    ensures forall n: nat :: n <= depth ==> NearFirst(w, root, nodes, n)
    ensures Members(found) == AllIncident(w, Members(nodes))
  {
    hide Incident, WalkInv, Walk.Next;
    nodes, found := [], [];
    var visited: set<string> := {};
    var queue := [Item(root, 0)];
    ghost var level: map<string, nat> := map[];
    StartOfWalk(w, root, depth);
    while queue != []
      invariant level.Keys == visited == Members(nodes) && visited <= w.Universe(root)
      invariant WalkInv(w, root, depth, level, queue)
      invariant forall item :: item in queue ==> item.node in w.Universe(root)
      invariant forall i, j :: 0 <= i < j < |nodes| ==> nodes[i] != nodes[j]
      invariant Members(found) == AllIncident(w, visited)
      invariant forall i, j :: 0 <= i < j < |nodes| ==> level[nodes[i]] <= level[nodes[j]]
      decreases w.Universe(root) - visited, |queue|
    {
      var head := queue[0];
      assert head in queue;
      if head.node in visited || head.level > depth || !w.allows(head.node) {
        SkipKeepsInv(w, root, depth, level, queue);
        queue := queue[1..];
        continue;
      }
      VisitedAreNearer(w, root, depth, level, queue);
      ghost var before := visited;
      visited := visited + {head.node};
      var edgesHere, added := Visit(w, head.node, head.level, visited);
      VisitKeepsInv(w, root, depth, level, queue, added);
      w.NextStaysInside(root, head.node);
      AllIncidentGrows(w, before, head.node, found, edgesHere);
      NewNode(nodes, head.node);
      nodes := nodes + [head.node];
      found := found + edgesHere;
      level := level[head.node := head.level];
      queue := queue[1..] + added;
    }
    AllWithinDepth(w, root, depth, level);
    forall n: nat | n <= depth ensures NearFirst(w, root, nodes, n) {
      OrderedByDistance(w, root, depth, level, nodes, n);
    }
  }

  lemma VisitedAreNearer(w: Walk, root: string, depth: int, level: map<string, nat>, queue: seq<Item>)
    requires queue != [] && WalkInv(w, root, depth, level, queue)
    ensures forall u :: u in level ==> level[u] <= queue[0].level
  {
  }

  lemma OrderedByDistance(w: Walk, root: string, depth: int, level: map<string, nat>, nodes: seq<string>, n: nat)
    requires WalkInv(w, root, depth, level, []) && n <= depth
    requires forall u :: u in nodes ==> u in level
    requires forall i, j :: 0 <= i < j < |nodes| ==> level[nodes[i]] <= level[nodes[j]]
    ensures NearFirst(w, root, nodes, n)
  {
    hide Walk.Within;
    NothingIsMissed(w, root, depth, level, n);
    forall i, j | 0 <= i < j < |nodes| && nodes[j] in w.Within(root, n) ensures nodes[i] in w.Within(root, n) {
      WithinGrows(w, root, level[nodes[i]], n);
    }
  }

  lemma StartOfWalk(w: Walk, root: string, depth: int)
    ensures WalkInv(w, root, depth, map[], [Item(root, 0)])
    ensures AllIncident(w, {}) == {}
  {
    assert Item(root, 0) in [Item(root, 0)];
  }

  lemma NewNode(nodes: seq<string>, u: string)
    ensures Members(nodes + [u]) == Members(nodes) + {u}
  {
  }

  lemma AllIncidentGrows(w: Walk, us: set<string>, u: string, found: seq<Edge>, here: seq<Edge>)
    requires Members(found) == AllIncident(w, us) && Members(here) == Incident(w, u)
    ensures Members(found + here) == AllIncident(w, us + {u})
  {
    assert Members(found + here) == Members(found) + Members(here);
    forall e | e in AllIncident(w, us + {u}) ensures e in Members(found) + Members(here) {
      var v :| v in us + {u} && e in Incident(w, v);
      assert v in us ==> e in AllIncident(w, us);
    }
    forall e | e in Members(found) + Members(here) ensures e in AllIncident(w, us + {u}) {
      if e in Members(here) {
        assert u in us + {u};
      } else {
        var v :| v in us && e in Incident(w, v);
        assert v in us + {u};
      }
    }
  }

  /** The edges join exactly the pairs linked by an allowed link of one of the notes, each once and in scope. */
  ghost predicate Reports(w: Walk, us: set<string>, edges: seq<Edge>) {
    && (forall e :: e in edges ==> e in AllIncident(w, us) && w.allows(e.from) && w.allows(e.to))
    && (forall e :: e in AllIncident(w, us) ==> exists d :: d in edges && Pair(d) == Pair(e))
    && (forall i, j :: 0 <= i < j < |edges| ==> Pair(edges[i]) != Pair(edges[j]))
  }

  /**
   * The walk returns exactly the notes at distance at most `depth` in the scope-filtered graph, each
   * once and nearest first, and exactly the pairs linked by an allowed link of one of them, each once,
   * both ends in scope. On an exact index that graph is the one the indexed contents speak of.
   */
  method GetLinkGraph(w: Walk, root: string, depth: int, ghost rec: Contents)
    returns (nodes: seq<string>, edges: seq<Edge>)
    ensures Members(nodes) == w.Reached(root, depth)
    ensures forall i, j :: 0 <= i < j < |nodes| ==> nodes[i] != nodes[j]
    ensures forall n: nat :: n <= depth ==> NearFirst(w, root, nodes, n)
    ensures Reports(w, Members(nodes), edges)
    ensures Fresh(w.ix, rec, w.s) ==>
              && (forall v :: v in nodes <==> depth >= 0 && Near(w, rec, root, v, depth))
              && (forall i, j, n: nat :: 0 <= i < j < |nodes| && n <= depth && Near(w, rec, root, nodes[j], n) ==>
                    Near(w, rec, root, nodes[i], n))
    ensures Fresh(w.ix, rec, w.s) ==>
              && (forall e :: e in edges ==> Links(w, rec, nodes, e))
              && (forall e :: Links(w, rec, nodes, e) ==> exists d :: d in edges && Pair(d) == Pair(e))
  {
    hide Incident, Walk.Within, Near, Links, Fresh;
    var found: seq<Edge>;
    nodes, found := Explore(w, root, depth);
    assert forall e :: e in found <==> e in Members(found);
    edges := Deduplicate(found);
    forall e | e in edges ensures w.allows(e.from) && w.allows(e.to) {
      IncidentStaysInScope(w, root, depth, Members(nodes), e);
    }
    if Fresh(w.ix, rec, w.s) {
      ReachedAllows(w, root, depth);
      NodesAreNear(w, rec, root, depth, nodes);
      ReportsAreLinks(w, rec, nodes, edges);
    }
  }

  // ---------------------------------------------------------------------------------------
  // The same graph, from the contents alone

  /**
   * A link leads to the indexed note whose stem or alias is the stem of the link, whatever the case, or
   * if there is none to the text of the link in lower case.
   */
  ghost predicate LeadsTo(link: string, v: string, rec: Contents, s: Settings) {
    var low := s.lower(link);
    var key := s.lower(s.stem(low));
    if exists p :: p != "" && Claims(p, key, rec, s) then v != "" && Claims(v, key, rec, s) else v == low
  }

  ghost predicate LinksOut(u: string, v: string, rec: Contents, s: Settings) {
    u in rec && exists link :: link in s.parse(rec[u]).links && LeadsTo(link, v, rec, s)
  }

  /** A walk in this direction can go from the one to the other. */
  ghost predicate Steps(direction: string, u: string, v: string, rec: Contents, s: Settings) {
    || (direction in {"outgoing", "both"} && LinksOut(u, v, rec, s))
    || (direction in {"incoming", "both"} && v in ScanBacklinks(u, rec, s))
  }

  /** A chain of such steps between notes in scope. */
  ghost predicate Chain(w: Walk, rec: Contents, path: seq<string>) {
    && path != [] && (forall i :: 0 <= i < |path| ==> w.allows(path[i]))
    && forall i :: 0 <= i < |path| - 1 ==> Steps(w.direction, path[i], path[i + 1], rec, w.s)
  }

  /** A chain of at most `n` steps joins the two. */
  ghost predicate Near(w: Walk, rec: Contents, root: string, v: string, n: nat) {
    exists path :: Chain(w, rec, path) && path[0] == root && path[|path| - 1] == v && |path| <= n + 1
  }

  /** A link to report: out of, or into, one of the notes, between notes in scope. */
  ghost predicate Links(w: Walk, rec: Contents, nodes: seq<string>, e: Edge) {
    && w.allows(e.from) && w.allows(e.to)
    && match e.kind
       case Outgoing => w.direction in {"outgoing", "both"} && e.from in nodes && LinksOut(e.from, e.to, rec, w.s)
       case Incoming =>
         w.direction in {"incoming", "both"} && e.to in nodes && e.from in ScanBacklinks(e.to, rec, w.s)
  }

  /** Where the index resolves a link to is where the contents say it leads. */
  lemma ResolvedLeads(ix: Index, link: string, v: string, rec: Contents, s: Settings)
    requires Fresh(ix, rec, s)
    ensures Resolved(ix, s, s.lower(link)) == v <==> LeadsTo(link, v, rec, s)
  {
    hide Fresh, Claims;
    AliasesAreClaims(ix, rec, s);
    var key := s.lower(s.stem(s.lower(link)));
    if key in ix.aliases && ix.aliases[key] != "" {
      assert Claims(ix.aliases[key], key, rec, s);
    } else {
      assert forall p :: Claims(p, key, rec, s) ==> p == "";
    }
  }

  lemma OutIsLinks(w: Walk, rec: Contents, u: string, v: string)
    requires Fresh(w.ix, rec, w.s)
    ensures v in w.Out(u) <==> w.FollowsOut() && w.allows(v) && LinksOut(u, v, rec, w.s)
  {
    hide Resolved, LeadsTo, AllOwn, SoundLinks, SoundTags, SoundBlocks, SoundAliases;
    if v in w.Out(u) {
      var t :| t in Get(w.ix.outlinks, u) && v == Resolved(w.ix, w.s, t);
      var link :| link in w.s.parse(rec[u]).links && w.s.lower(link) == t;
      ResolvedLeads(w.ix, link, v, rec, w.s);
    }
    if w.FollowsOut() && w.allows(v) && LinksOut(u, v, rec, w.s) {
      var link :| link in w.s.parse(rec[u]).links && LeadsTo(link, v, rec, w.s);
      ResolvedLeads(w.ix, link, v, rec, w.s);
      assert w.s.lower(link) in w.ix.outlinks[u];
    }
  }

  lemma NextIsStep(w: Walk, rec: Contents, u: string, v: string)
    requires Fresh(w.ix, rec, w.s)
    ensures v in w.Next(u) <==> w.allows(v) && Steps(w.direction, u, v, rec, w.s)
  {
    hide Fresh, LinksOut, Walk.Out, Backlinks, ScanBacklinks;
    OutIsLinks(w, rec, u, v);
    BacklinksAreScanned(w.ix, u, rec, w.s);
  }

  lemma {:induction false} WithinIsNear(w: Walk, rec: Contents, root: string, n: nat, v: string)
    requires Fresh(w.ix, rec, w.s)
    ensures v in w.Within(root, n) ==> Near(w, rec, root, v, n)
  {
    hide Fresh, Steps, Walk.Next;
    if v in w.Within(root, n) {
      if n == 0 {
        assert Chain(w, rec, [root]);
      } else if v in w.Within(root, n - 1) {
        WithinIsNear(w, rec, root, n - 1, v);
        var path :| Chain(w, rec, path) && path[0] == root && path[|path| - 1] == v && |path| <= n;
        assert |path| <= n + 1;
      } else {
        var u :| u in w.Within(root, n - 1) && v in w.Next(u);
        WithinIsNear(w, rec, root, n - 1, u);
        var path :| Chain(w, rec, path) && path[0] == root && path[|path| - 1] == u && |path| <= n;
        NextIsStep(w, rec, u, v);
        assert Chain(w, rec, path + [v]);
      }
    }
  }

  lemma {:induction false} ChainIsWithin(w: Walk, rec: Contents, root: string, path: seq<string>)
    requires Fresh(w.ix, rec, w.s) && Chain(w, rec, path) && path[0] == root
    ensures path[|path| - 1] in w.Within(root, |path| - 1)
    decreases |path|
  {
    hide Fresh, Steps, Walk.Next;
    if |path| > 1 {
      var before := path[..|path| - 1];
      ChainIsWithin(w, rec, root, before);
      NextIsStep(w, rec, path[|path| - 2], path[|path| - 1]);
    }
  }

  lemma NearIsWithin(w: Walk, rec: Contents, root: string, v: string, n: nat)
    requires Fresh(w.ix, rec, w.s)
    ensures v in w.Within(root, n) <==> Near(w, rec, root, v, n)
  {
    hide Fresh, Walk.Within, Steps;
    WithinIsNear(w, rec, root, n, v);
    if Near(w, rec, root, v, n) {
      var path :| Chain(w, rec, path) && path[0] == root && path[|path| - 1] == v && |path| <= n + 1;
      ChainIsWithin(w, rec, root, path);
      WithinGrows(w, root, |path| - 1, n);
    }
  }

  lemma NodesAreNear(w: Walk, rec: Contents, root: string, depth: int, nodes: seq<string>)
    requires Fresh(w.ix, rec, w.s) && Members(nodes) == w.Reached(root, depth)
    requires forall n: nat :: n <= depth ==> NearFirst(w, root, nodes, n)
    ensures forall v :: v in nodes <==> depth >= 0 && Near(w, rec, root, v, depth)
    ensures forall i, j, n: nat :: 0 <= i < j < |nodes| && n <= depth && Near(w, rec, root, nodes[j], n) ==>
              Near(w, rec, root, nodes[i], n)
  {
    hide Fresh, Walk.Within, Near;
    forall v ensures v in nodes <==> depth >= 0 && Near(w, rec, root, v, depth) {
      assert v in nodes <==> v in Members(nodes);
      if depth >= 0 {
        NearIsWithin(w, rec, root, v, depth);
      }
    }
    forall i, j, n: nat | 0 <= i < j < |nodes| && n <= depth && Near(w, rec, root, nodes[j], n)
      ensures Near(w, rec, root, nodes[i], n)
    {
      assert NearFirst(w, root, nodes, n);
      NearIsWithin(w, rec, root, nodes[i], n);
      NearIsWithin(w, rec, root, nodes[j], n);
    }
  }

  lemma IncidentIsLinks(w: Walk, rec: Contents, nodes: seq<string>, e: Edge)
    requires Fresh(w.ix, rec, w.s) && forall u :: u in nodes ==> w.allows(u)
    ensures e in AllIncident(w, Members(nodes)) <==> Links(w, rec, nodes, e)
  {
    hide Fresh, LinksOut, Walk.Out, Backlinks, ScanBacklinks;
    OutIsLinks(w, rec, e.from, e.to);
    BacklinksAreScanned(w.ix, e.to, rec, w.s);
    var u := if e.kind.Outgoing? then e.from else e.to;
    assert e in AllIncident(w, Members(nodes)) <==> u in Members(nodes) && e in Incident(w, u);
  }

  lemma ReportsAreLinks(w: Walk, rec: Contents, nodes: seq<string>, edges: seq<Edge>)
    requires Fresh(w.ix, rec, w.s) && Reports(w, Members(nodes), edges) && forall u :: u in nodes ==> w.allows(u)
    ensures forall e :: e in edges ==> Links(w, rec, nodes, e)
    ensures forall e :: Links(w, rec, nodes, e) ==> exists d :: d in edges && Pair(d) == Pair(e)
  {
    hide Fresh, Links, Incident, AllIncident;
    forall e ensures e in AllIncident(w, Members(nodes)) <==> Links(w, rec, nodes, e) {
      IncidentIsLinks(w, rec, nodes, e);
    }
  }

  lemma ReachedAllows(w: Walk, root: string, depth: int)
    ensures forall v :: v in w.Reached(root, depth) ==> w.allows(v)
  {
    if depth >= 0 {
      w.WithinAllows(root, depth);
    }
  }

  lemma IncidentStaysInScope(w: Walk, root: string, depth: int, nodes: set<string>, e: Edge)
    requires e in AllIncident(w, nodes) && nodes == w.Reached(root, depth)
    ensures w.allows(e.from) && w.allows(e.to)
  {
    var u :| u in nodes && e in Incident(w, u);
    if depth >= 0 {
      w.WithinAllows(root, depth);
    }
    w.NextStaysInside(root, u);
  }

  lemma AllWithinDepth(w: Walk, root: string, depth: int, level: map<string, nat>)
    requires WalkInv(w, root, depth, level, [])
    ensures level.Keys == w.Reached(root, depth)
  {
    if depth >= 0 {
      NothingIsMissed(w, root, depth, level, depth);
      forall u | u in level ensures u in w.Within(root, depth) {
        WithinGrows(w, root, level[u], depth);
      }
    }
  }
}
