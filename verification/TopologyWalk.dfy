/**
 Topology discovery (src/lib/bcmp/bcmp_topology.cpp) as steps on values: the list of neighbor tables
 collected so far, the cursor, the direction flag and the pending event.
 */
module TopologyWalk {

  datatype Neighbor = Neighbor(nodeId: nat, port: nat)

  /** A neighbor table reply. */
  datatype Table = Table(nodeId: nat, ports: seq<bool>, neighbors: seq<Neighbor>)

  /** A table in the list, with the number of its ports already explored. */
  datatype Entry = Entry(table: Table, isRoot: bool, explored: nat)

  /** What the task does next: check the cursor's node, wait for the answer to a request, or end. */
  datatype Pending = Check | Waiting(target: nat) | Done

  datatype Walk = Walk(entries: seq<Entry>, index: int, insertBefore: bool, pending: Pending)

  // ---- the operations of the source on a list of tables ----

  // networkTopologyNodeIdInTopology
  predicate InTopology(entries: seq<Entry>, nodeId: nat) {
    exists j :: 0 <= j < |entries| && entries[j].table.nodeId == nodeId
  }

  // networkTopologyCheckNeighborNodeIds: the first neighbor from k on that is not in the list, or 0.
  function NewNeighbor(entries: seq<Entry>, neighbors: seq<Neighbor>, k: nat): nat
    requires k <= |neighbors|
    decreases |neighbors| - k
  {
    if k == |neighbors| then 0
    else if !InTopology(entries, neighbors[k].nodeId) then neighbors[k].nodeId
    else NewNeighbor(entries, neighbors, k + 1)
  }

  predicate Online(t: Table, n: Neighbor) {
    1 <= n.port <= |t.ports| && t.ports[n.port - 1]
  }

  // The neighbors, from k on, whose port is up.
  function OnlineCount(t: Table, k: nat): nat
    requires k <= |t.neighbors|
    decreases |t.neighbors| - k
  {
    if k == |t.neighbors| then 0
    else (if Online(t, t.neighbors[k]) then 1 else 0) + OnlineCount(t, k + 1)
  }

  // networkTopologyCheckAllPortsExplored
  predicate AllPortsExplored(e: Entry) {
    OnlineCount(e.table, 0) == e.explored
  }

  function Explore(e: Entry): (after: Entry)
    ensures after.explored <= 255 && (e.explored < 255 ==> after.explored == e.explored + 1)
  {
    e.(explored := (e.explored + 1) % 256)
  }

  // The index after moving back towards the root: forward if nodes are inserted before the cursor.
  function MoveBack(w: Walk): int {
    if w.insertBefore then (if w.index < |w.entries| - 1 then w.index + 1 else w.index)
    else (if w.index > 0 then w.index - 1 else w.index)
  }

  predicate CursorIn(w: Walk) {
    0 <= w.index < |w.entries|
  }

  // process_check_node_event
  function CheckNode(w: Walk): Walk
    requires CursorIn(w)
  {
    var e := w.entries[w.index];
    if AllPortsExplored(e) then
      if e.isRoot then w.(pending := Done)
      else w.(index := MoveBack(w), pending := Check)
    else
      var before := w.insertBefore || (e.isRoot && e.explored == 1);
      var w1 := w.(insertBefore := before);
      var unlisted := NewNeighbor(w.entries, e.table.neighbors, 0);
      var w2 := w1.(entries := w.entries[w.index := Explore(e)]);
      if unlisted != 0 then w2.(pending := Waiting(unlisted))
      else w2.(index := MoveBack(w1), pending := Check)
  }

  // BCMP_TOPO_EVT_ADD_NODE
  function AddNode(w: Walk, t: Table): Walk
    requires CursorIn(w)
  {
    if InTopology(w.entries, t.nodeId) then w.(pending := Check)
    else
      var e := Explore(Entry(t, false, 0));
      if w.insertBefore then
        w.(entries := w.entries[..w.index] + [e] + w.entries[w.index..], pending := Check)
      else
        w.(entries := w.entries[..w.index + 1] + [e] + w.entries[w.index + 1..], index := w.index + 1, pending := Check)
  }

  // BCMP_TOPO_EVT_TIMEOUT
  function TimedOut(w: Walk): Walk {
    w.(index := MoveBack(w), pending := Check)
  }

  // process_start_topology_event
  function Start(root: Table): Walk {
    Walk([Entry(root, true, 0)], 0, false, Check)
  }

  // ---- line networks ----

  function Degree(n: nat, i: int): nat {
    (if 0 < i < n then 1 else 0) + (if 0 <= i < n - 1 then 1 else 0)
  }

  predicate Adjacent(n: nat, i: int, j: int) {
    0 <= j < n && (j == i - 1 || j == i + 1)
  }

  // A line of at most 255 nodes (the list's length is an 8-bit field) with distinct non-zero ids, in
  // which every table lists exactly the nodes beside it, on ports that are up, in any order.
  ghost predicate Line(net: seq<Table>) {
    && 0 < |net| <= 255
    && (forall i :: 0 <= i < |net| ==> net[i].nodeId != 0)
    && (forall i, j {:trigger Distinct(net, i, j)} :: 0 <= i < j < |net| ==> Distinct(net, i, j))
    && (forall i {:trigger ListsNeighbors(net, i)} :: 0 <= i < |net| ==> ListsNeighbors(net, i))
  }

  predicate Distinct(net: seq<Table>, i: int, j: int)
    requires 0 <= i < |net| && 0 <= j < |net|
  {
    net[i].nodeId != net[j].nodeId
  }

  lemma {:induction false} SameNode(net: seq<Table>, i: int, j: int)
    requires Line(net) && 0 <= i < |net| && 0 <= j < |net| && net[i].nodeId == net[j].nodeId
    ensures i == j
  {
    var lo, hi := if i < j then i else j, if i < j then j else i;
    assert lo < hi ==> Distinct(net, lo, hi);
  }

  ghost predicate ListsNeighbors(net: seq<Table>, i: int)
    requires 0 <= i < |net|
  {
    var t := net[i];
    && |t.neighbors| == Degree(|net|, i)
    && (forall k :: 0 <= k < |t.neighbors| ==> Online(t, t.neighbors[k]))
    && (forall k :: 0 <= k < |t.neighbors| ==> exists j ::
         Adjacent(|net|, i, j) && net[j].nodeId == t.neighbors[k].nodeId)
    && (forall k, l :: 0 <= k < l < |t.neighbors| ==> t.neighbors[k].nodeId != t.neighbors[l].nodeId)
  }

  // Without naming ports up or down: what is compared with the explored ports is the number of neighbors
  // whose port is in the table and up.
  lemma {:induction false} OnlineCountIs(t: Table, k: nat)
    requires k <= |t.neighbors|
    ensures OnlineCount(t, k)
         == |set j | k <= j < |t.neighbors| && 0 < t.neighbors[j].port <= |t.ports| && t.ports[t.neighbors[j].port - 1]|
    decreases |t.neighbors| - k
  {
    var up := set j |
      k <= j < |t.neighbors| && 0 < t.neighbors[j].port <= |t.ports| && t.ports[t.neighbors[j].port - 1];
    if k == |t.neighbors| {
      assert up == {};
    } else {
      OnlineCountIs(t, k + 1);
      var later := set j |
        k + 1 <= j < |t.neighbors| && 0 < t.neighbors[j].port <= |t.ports| && t.ports[t.neighbors[j].port - 1];
      assert up == later + if k in up then {k} else {};
    }
  }

  // An answer from a node that is listed already changes nothing but the event to wait for.
  lemma {:induction false} KnownAnswerIsIgnored(w: Walk, t: Table, j: nat)
    requires CursorIn(w) && j < |w.entries| && w.entries[j].table.nodeId == t.nodeId
    ensures AddNode(w, t) == Walk(w.entries, w.index, w.insertBefore, Check)
  {
  }

  lemma {:induction false} AllOnline(t: Table, k: nat)
    requires k <= |t.neighbors|
    requires forall l :: 0 <= l < |t.neighbors| ==> Online(t, t.neighbors[l])
    ensures OnlineCount(t, k) == |t.neighbors| - k
    decreases |t.neighbors| - k
  {
    if k >= |t.neighbors| {
    } else {
      AllOnline(t, k + 1);
    }
  }

  lemma {:induction false} FullyExplored(net: seq<Table>, i: int, e: Entry)
    requires Line(net) && 0 <= i < |net| && e.table == net[i]
    ensures AllPortsExplored(e) <==> e.explored == Degree(|net|, i)
  {
    assert ListsNeighbors(net, i);
    AllOnline(net[i], 0);
  }

  // ---- the shape of the list ----

  /** Entry j of the list is node base + step * j of the line; the root is entry `root`. */
  datatype Layout = Layout(base: int, step: int, root: int) {
    function At(j: int): int {
      if step == 1 then base + j else base - j
    }
  }

  /** The list is a duplicate-free contiguous stretch of the line, in one orientation, with the root
      in it once; the cursor is in the part that is being explored. */
  ghost predicate Segment(net: seq<Table>, r: int, lay: Layout, w: Walk) {
    && (lay.step == 1 || lay.step == -1)
    && CursorIn(w) && 0 <= lay.root < |w.entries| && lay.At(lay.root) == r
    && 0 <= lay.At(0) < |net| && 0 <= lay.At(|w.entries| - 1) < |net|
    && (forall j :: 0 <= j < |w.entries| ==> 0 <= lay.At(j) < |net| && w.entries[j].table == net[lay.At(j)])
    && (forall j :: 0 <= j < |w.entries| ==> (w.entries[j].isRoot <==> j == lay.root))
    && (if w.insertBefore then w.index <= lay.root else lay.root == 0)
  }

  // How far the ports are explored.
  ghost predicate Explored(net: seq<Table>, r: int, lay: Layout, w: Walk)
    requires Segment(net, r, lay, w)
  {
    var n, last, root := |net|, |w.entries| - 1, w.entries[lay.root].explored;
    && (forall j :: 0 <= j <= last && j != lay.root ==> 1 <= w.entries[j].explored <= Degree(n, lay.At(j)))
    && (forall j :: lay.root < j < last ==> w.entries[j].explored == 2)
    && (forall j :: 0 < j < lay.root ==> w.entries[j].explored == 2)
    && (if w.insertBefore then root == 2 && Degree(n, r) == 2 else root <= 1 && root <= Degree(n, r))
    && (last > 0 ==> root >= 1)
    && (lay.root < last && (w.insertBefore || w.index < last) ==> w.entries[last].explored == Degree(n, lay.At(last)))
  }

  // The request that is out: for a node next to the end of the list that is growing.
  ghost predicate Asked(net: seq<Table>, lay: Layout, w: Walk, q: int) {
    && w.pending.Waiting? && 0 <= q < |net| && net[q].nodeId == w.pending.target
    && w.index == (if w.insertBefore then 0 else |w.entries| - 1)
    && (if |w.entries| == 1 then Adjacent(|net|, lay.At(0), q)
        else if w.insertBefore then q == lay.At(-1) else q == lay.At(|w.entries|))
    && CursorIn(w) && w.entries[w.index].explored >= 1
    && (w.index != lay.root ==> w.entries[w.index].explored == 2)
  }

  ghost predicate Good(net: seq<Table>, r: int, lay: Layout, w: Walk) {
    && Segment(net, r, lay, w) && Explored(net, r, lay, w)
    && (w.pending.Waiting? ==> exists q :: Asked(net, lay, w, q))
    && (w.pending.Done? ==> w.index == lay.root && w.entries[lay.root].explored == Degree(|net|, r))
  }

  // If every request so far was answered, the ends the cursor has left are ends of the line.
  ghost predicate Thorough(net: seq<Table>, r: int, lay: Layout, w: Walk)
    requires Segment(net, r, lay, w)
  {
    var n, last := |net|, |w.entries| - 1;
    && (last > lay.root && w.index < last ==> Degree(n, lay.At(last)) == 1)
    && (lay.root > 0 && w.index > 0 ==> Degree(n, lay.At(0)) == 1)
    && (w.insertBefore ==> last > lay.root)
    && (!w.pending.Waiting? ==>
          && (w.entries[lay.root].explored >= 1 ==> last > lay.root)
          && (w.entries[lay.root].explored == 2 ==> lay.root > 0)
          && (last > lay.root && w.index == last ==> w.entries[last].explored == 1)
          && (lay.root > 0 && w.index == 0 ==> w.entries[0].explored == 1))
  }

  // ---- one event keeps the list a segment and makes progress ----

  // The first neighbor that is not in the list, if there is one.
  lemma {:induction false} NewNeighborIs(net: seq<Table>, entries: seq<Entry>, i: int, k: nat)
    requires Line(net) && 0 <= i < |net| && k <= |net[i].neighbors|
    ensures var id := NewNeighbor(entries, net[i].neighbors, k);
            && (id != 0 ==> !InTopology(entries, id) && exists j :: Adjacent(|net|, i, j) && net[j].nodeId == id)
            && (id == 0 ==> forall l :: k <= l < |net[i].neighbors| ==> InTopology(entries, net[i].neighbors[l].nodeId))
    decreases |net[i].neighbors| - k
  {
    assert ListsNeighbors(net, i);
    if k >= |net[i].neighbors| {
    } else {
      NewNeighborIs(net, entries, i, k + 1);
    }
  }

  // Every node beside i is in i's table.
  lemma {:induction false} NeighborListed(net: seq<Table>, i: int, j: int)
    requires Line(net) && 0 <= i < |net| && Adjacent(|net|, i, j)
    ensures exists k :: 0 <= k < |net[i].neighbors| && net[i].neighbors[k].nodeId == net[j].nodeId
  {
    assert ListsNeighbors(net, i);
    var t := net[i];
    var j0 :| Adjacent(|net|, i, j0) && net[j0].nodeId == t.neighbors[0].nodeId;
    if |t.neighbors| == 2 {
      var j1 :| Adjacent(|net|, i, j1) && net[j1].nodeId == t.neighbors[1].nodeId;
      assert t.neighbors[0].nodeId != t.neighbors[1].nodeId;
    }
  }

  // A node of the line is in the list exactly when it is in the segment.
  lemma {:induction false} ListedIff(net: seq<Table>, r: int, lay: Layout, w: Walk, q: int)
    requires Line(net) && Segment(net, r, lay, w) && 0 <= q < |net|
    ensures InTopology(w.entries, net[q].nodeId) <==> exists j :: 0 <= j < |w.entries| && lay.At(j) == q
  {
    forall j | 0 <= j < |w.entries| && w.entries[j].table.nodeId == net[q].nodeId
      ensures lay.At(j) == q
    {
      assert w.entries[j].table == net[lay.At(j)];
      SameNode(net, lay.At(j), q);
    }
  }

  // What is left to explore: ports at the root and at the growing end, and nodes not in the list.
  function Unexplored(net: seq<Table>, r: int, lay: Layout, w: Walk): int
    requires CursorIn(w) && 0 <= lay.root < |w.entries|
  {
    var last := |w.entries| - 1;
    2 * (|net| - |w.entries|)
    + Degree(|net|, r) - w.entries[lay.root].explored
    + if w.insertBefore then (if lay.root > 0 then Degree(|net|, lay.At(0)) - w.entries[0].explored else 0)
      else (if last > 0 then Degree(|net|, lay.At(last)) - w.entries[last].explored else 0)
  }

  // The way back to the root, and the event to wait for.
  function WayBack(lay: Layout, w: Walk): int {
    (if w.insertBefore then lay.root - w.index else w.index - lay.root)
    + match w.pending case Done => 0 case Check => 1 case Waiting(_) => 2
  }

  ghost predicate Progress(net: seq<Table>, r: int, lay: Layout, w: Walk, lay': Layout, w': Walk)
    requires Good(net, r, lay, w) && Good(net, r, lay', w')
  {
    || 0 <= Unexplored(net, r, lay', w') < Unexplored(net, r, lay, w)
    || (0 <= Unexplored(net, r, lay', w') == Unexplored(net, r, lay, w) && 0 <= WayBack(lay', w') < WayBack(lay, w))
  }

  lemma {:induction false} NonNegative(net: seq<Table>, r: int, lay: Layout, w: Walk)
    requires Good(net, r, lay, w)
    ensures Unexplored(net, r, lay, w) >= 0 && WayBack(lay, w) >= 0
  {
  }

  // A node that is not fully explored is the root or the growing end, and has a neighbor to ask for.
  lemma {:induction false} NextToAsk(net: seq<Table>, r: int, lay: Layout, w: Walk) returns (q: int)
    requires Line(net) && Good(net, r, lay, w) && w.pending.Check?
    requires w.entries[w.index].explored != Degree(|net|, lay.At(w.index))
    ensures Adjacent(|net|, lay.At(w.index), q)
    ensures NewNeighbor(w.entries, w.entries[w.index].table.neighbors, 0) == net[q].nodeId
    ensures w.index == lay.root || w.entries[w.index].explored == 1
    ensures var before := w.insertBefore || (w.index == lay.root && w.entries[w.index].explored == 1);
            && w.index == (if before then 0 else |w.entries| - 1)
            && (|w.entries| > 1 ==> q == if before then lay.At(-1) else lay.At(|w.entries|))
  {
    var c, n, len := lay.At(w.index), |net|, |w.entries|;
    var id := NewNeighbor(w.entries, net[c].neighbors, 0);
    NewNeighborIs(net, w.entries, c, 0);
    if w.index == lay.root {
      assert w.entries[lay.root].explored < Degree(n, r);
    }
    if id == 0 {
      // both neighbors would be in the list
      var before := w.insertBefore || (w.index == lay.root && w.entries[w.index].explored == 1);
      var j := if len > 1 then (if before then lay.At(-1) else lay.At(len)) else if c > 0 then c - 1 else c + 1;
      assert Adjacent(n, c, j);
      NeighborListed(net, c, j);
      ListedIff(net, r, lay, w, j);
      assert false;
    }
    q :| Adjacent(n, c, q) && net[q].nodeId == id;
    ListedIff(net, r, lay, w, q);
    if w.index > 0 { assert lay.At(w.index - 1) != q; }
    if w.index < len - 1 { assert lay.At(w.index + 1) != q; }
  }

  lemma {:induction false} CheckNodeGood(net: seq<Table>, r: int, lay: Layout, w: Walk)
    requires Line(net) && Good(net, r, lay, w) && w.pending.Check?
    ensures Good(net, r, lay, CheckNode(w))
    ensures Progress(net, r, lay, w, lay, CheckNode(w))
    ensures Thorough(net, r, lay, w) ==> Thorough(net, r, lay, CheckNode(w))
  {
    FullyExplored(net, lay.At(w.index), w.entries[w.index]);
    if w.entries[w.index].explored == Degree(|net|, lay.At(w.index)) {
      LeaveNode(net, r, lay, w);
    } else {
      AskNeighbor(net, r, lay, w);
    }
  }

  lemma {:induction false} LeaveNode(net: seq<Table>, r: int, lay: Layout, w: Walk)
    requires Line(net) && Good(net, r, lay, w) && w.pending.Check?
    requires AllPortsExplored(w.entries[w.index]) && w.entries[w.index].explored == Degree(|net|, lay.At(w.index))
    ensures Good(net, r, lay, CheckNode(w))
    ensures Progress(net, r, lay, w, lay, CheckNode(w))
    ensures Thorough(net, r, lay, w) ==> Thorough(net, r, lay, CheckNode(w))
  {
    NonNegative(net, r, lay, w);
    assert Segment(net, r, lay, CheckNode(w));
  }

  lemma {:induction false} AskNeighbor(net: seq<Table>, r: int, lay: Layout, w: Walk)
    requires Line(net) && Good(net, r, lay, w) && w.pending.Check?
    requires !AllPortsExplored(w.entries[w.index]) && w.entries[w.index].explored != Degree(|net|, lay.At(w.index))
    ensures Good(net, r, lay, CheckNode(w)) && CheckNode(w).pending.Waiting?
    ensures Progress(net, r, lay, w, lay, CheckNode(w))
    ensures Thorough(net, r, lay, w) ==> Thorough(net, r, lay, CheckNode(w))
  {
    var w' := CheckNode(w);
    var q := NextToAsk(net, r, lay, w);
    assert Segment(net, r, lay, w');
    assert Explored(net, r, lay, w') by { AskExplores(net, r, lay, w, w'); }
    assert Asked(net, lay, w', q);
    AskProgresses(net, r, lay, w, w');
  }

  lemma {:induction false} AskProgresses(net: seq<Table>, r: int, lay: Layout, w: Walk, w': Walk)
    requires Line(net) && Good(net, r, lay, w) && Good(net, r, lay, w')
    requires w.entries[w.index].explored < Degree(|net|, lay.At(w.index))
    requires w'.entries == w.entries[w.index := Explore(w.entries[w.index])] && w'.index == w.index
    requires w'.insertBefore == (w.insertBefore || (w.index == lay.root && w.entries[w.index].explored == 1))
    requires w.index == (if w'.insertBefore then 0 else |w.entries| - 1)
    ensures Progress(net, r, lay, w, lay, w')
  {
    hide Asked;
    NonNegative(net, r, lay, w');
  }

  lemma {:induction false} AskExplores(net: seq<Table>, r: int, lay: Layout, w: Walk, w': Walk)
    requires Good(net, r, lay, w) && w.pending.Check?
    requires w.entries[w.index].explored < Degree(|net|, lay.At(w.index))
    requires w.index == lay.root || w.entries[w.index].explored == 1
    requires w'.entries == w.entries[w.index := Explore(w.entries[w.index])] && w'.index == w.index
    requires w'.insertBefore == (w.insertBefore || (w.index == lay.root && w.entries[w.index].explored == 1))
    requires w.index == (if w'.insertBefore then 0 else |w.entries| - 1)
    requires Segment(net, r, lay, w')
    ensures Explored(net, r, lay, w')
  {
  }

  // A time-out brings the cursor back towards the root, except when it is the root's own second
  // request that times out while the list already holds the root's first side.
  predicate Strands(lay: Layout, w: Walk) {
    w.insertBefore && w.index == lay.root && |w.entries| > 1
  }

  lemma {:induction false} TimedOutGood(net: seq<Table>, r: int, lay: Layout, w: Walk)
    requires Line(net) && Good(net, r, lay, w) && w.pending.Waiting? && !Strands(lay, w)
    ensures Good(net, r, lay, TimedOut(w))
    ensures Progress(net, r, lay, w, lay, TimedOut(w))
  {
    assert Segment(net, r, lay, TimedOut(w));
    NonNegative(net, r, lay, TimedOut(w));
  }

  // The layout after the node asked for, q, was added.
  function Grown(lay: Layout, w: Walk, q: int): Layout
    requires CursorIn(w)
  {
    var step := if |w.entries| > 1 then lay.step else if (q > lay.At(0)) == w.insertBefore then -1 else 1;
    if w.insertBefore then Layout(q, step, lay.root + 1) else Layout(lay.At(0), step, lay.root)
  }

  ghost predicate Added(net: seq<Table>, r: int, lay: Layout, w: Walk, lay': Layout, w': Walk)
    requires Good(net, r, lay, w)
  {
    && Good(net, r, lay', w') && Progress(net, r, lay, w, lay', w')
    && (Thorough(net, r, lay, w) ==> Thorough(net, r, lay', w'))
  }

  lemma {:induction false} AddNodeGood(net: seq<Table>, r: int, lay: Layout, w: Walk, q: int)
    requires Line(net) && Good(net, r, lay, w) && Asked(net, lay, w, q)
    ensures Added(net, r, lay, w, Grown(lay, w, q), AddNode(w, net[q]))
  {
    ListedIff(net, r, lay, w, q);
    if w.insertBefore { Prepended(net, r, lay, w, q); } else { Appended(net, r, lay, w, q); }
    OneMoreIsAdded(net, r, lay, w, Grown(lay, w, q), AddNode(w, net[q]));
  }

  lemma {:induction false} Appended(net: seq<Table>, r: int, lay: Layout, w: Walk, q: int)
    requires Good(net, r, lay, w) && Asked(net, lay, w, q) && !w.insertBefore
    requires !InTopology(w.entries, net[q].nodeId)
    ensures OneMore(net, r, lay, w, Grown(lay, w, q), AddNode(w, net[q]))
  {
    var w', lay' := AddNode(w, net[q]), Grown(lay, w, q);
    AppendedValue(net, lay, w, q);
    AppendedLayout(net, r, lay, w, q);
    AppendedShape(net, r, lay, w, lay', w', q);
    hide Segment, Explored, Asked, AddNode, Grown;
  }

  lemma {:induction false} AppendedValue(net: seq<Table>, lay: Layout, w: Walk, q: int)
    requires Asked(net, lay, w, q) && !w.insertBefore && !InTopology(w.entries, net[q].nodeId)
    ensures AddNode(w, net[q])
      == w.(entries := w.entries + [Entry(net[q], false, 1)], index := |w.entries|, pending := Check)
  {
    assert w.entries[..w.index + 1] == w.entries && w.entries[w.index + 1..] == [];
  }

  lemma {:induction false} AppendedLayout(net: seq<Table>, r: int, lay: Layout, w: Walk, q: int)
    requires Segment(net, r, lay, w) && Asked(net, lay, w, q) && !w.insertBefore
    ensures var lay' := Grown(lay, w, q);
            && (lay'.step == 1 || lay'.step == -1) && lay'.root == lay.root && lay'.At(|w.entries|) == q
            && forall j :: 0 <= j < |w.entries| ==> lay'.At(j) == lay.At(j)
  {
  }

  lemma {:induction false} AppendedShape(net: seq<Table>, r: int, lay: Layout, w: Walk, lay': Layout, w': Walk, q: int)
    requires Good(net, r, lay, w) && Asked(net, lay, w, q) && !w.insertBefore
    requires w' == w.(entries := w.entries + [Entry(net[q], false, 1)], index := |w.entries|, pending := Check)
    requires (lay'.step == 1 || lay'.step == -1) && lay'.root == lay.root && lay'.At(|w.entries|) == q
    requires forall j :: 0 <= j < |w.entries| ==> lay'.At(j) == lay.At(j)
    ensures Segment(net, r, lay', w') && Explored(net, r, lay', w')
  {
    assert Segment(net, r, lay', w');
  }

  // What is known of the list after one node more, whichever end it was added to.
  ghost predicate OneMore(net: seq<Table>, r: int, lay: Layout, w: Walk, lay': Layout, w': Walk) {
    && Segment(net, r, lay', w') && Explored(net, r, lay', w')
    && w'.pending.Check? && w'.insertBefore == w.insertBefore && |w'.entries| == |w.entries| + 1 && |w.entries| > 0
    && if w.insertBefore
       then && lay'.root == lay.root + 1 && w'.index == 0 && w'.entries[0].explored == 1
            && lay'.At(|w.entries|) == lay.At(|w.entries| - 1)
            && (forall j :: 0 <= j < |w.entries| ==> w'.entries[j + 1] == w.entries[j])
       else && lay'.root == lay.root && w'.index == |w.entries| && w'.entries[|w.entries|].explored == 1
            && lay'.At(0) == lay.At(0)
            && (forall j :: 0 <= j < |w.entries| ==> w'.entries[j] == w.entries[j])
  }

  lemma {:induction false} OneMoreIsAdded(net: seq<Table>, r: int, lay: Layout, w: Walk, lay': Layout, w': Walk)
    requires Good(net, r, lay, w) && w.pending.Waiting? && OneMore(net, r, lay, w, lay', w')
    ensures Added(net, r, lay, w, lay', w')
  {
    NonNegative(net, r, lay', w');
    NonNegative(net, r, lay, w);
  }

  lemma {:induction false} Prepended(net: seq<Table>, r: int, lay: Layout, w: Walk, q: int)
    requires Good(net, r, lay, w) && Asked(net, lay, w, q) && w.insertBefore
    requires !InTopology(w.entries, net[q].nodeId)
    ensures OneMore(net, r, lay, w, Grown(lay, w, q), AddNode(w, net[q]))
  {
    PrependedValue(net, lay, w, q);
    PrependedLayout(net, r, lay, w, q);
    hide AddNode, Grown, Segment, Explored, Asked;
    PrependedSegment(net, r, lay, w, Grown(lay, w, q), AddNode(w, net[q]), q);
    PrependedExplored(net, r, lay, w, Grown(lay, w, q), AddNode(w, net[q]), q);
    PrependedIsOneMore(net, r, lay, w, Grown(lay, w, q), AddNode(w, net[q]), q);
  }

  lemma {:induction false} PrependedIsOneMore(net: seq<Table>, r: int, lay: Layout, w: Walk, lay': Layout,
      w': Walk, q: int)
    requires Segment(net, r, lay', w') && Explored(net, r, lay', w') && 0 <= q < |net| && |w.entries| > 0
    requires w' == w.(entries := [Entry(net[q], false, 1)] + w.entries, index := 0, pending := Check) && w.insertBefore
    requires lay'.root == lay.root + 1 && forall j :: 1 <= j <= |w.entries| ==> lay'.At(j) == lay.At(j - 1)
    ensures OneMore(net, r, lay, w, lay', w')
  {
    hide Segment, Explored;
  }

  lemma {:induction false} PrependedValue(net: seq<Table>, lay: Layout, w: Walk, q: int)
    requires Asked(net, lay, w, q) && w.insertBefore && !InTopology(w.entries, net[q].nodeId)
    ensures AddNode(w, net[q]) == w.(entries := [Entry(net[q], false, 1)] + w.entries, index := 0, pending := Check)
  {
  }

  lemma {:induction false} PrependedLayout(net: seq<Table>, r: int, lay: Layout, w: Walk, q: int)
    requires Segment(net, r, lay, w) && Asked(net, lay, w, q) && w.insertBefore
    ensures var lay' := Grown(lay, w, q);
            && (lay'.step == 1 || lay'.step == -1) && lay'.root == lay.root + 1 && lay'.At(0) == q
            && forall j :: 1 <= j <= |w.entries| ==> lay'.At(j) == lay.At(j - 1)
  {
  }

  lemma {:induction false} PrependedSegment(net: seq<Table>, r: int, lay: Layout, w: Walk, lay': Layout,
      w': Walk, q: int)
    requires Segment(net, r, lay, w) && 0 <= q < |net|
    requires w' == w.(entries := [Entry(net[q], false, 1)] + w.entries, index := 0, pending := Check) && w.insertBefore
    requires (lay'.step == 1 || lay'.step == -1) && lay'.root == lay.root + 1 && lay'.At(0) == q
    requires forall j :: 1 <= j <= |w.entries| ==> lay'.At(j) == lay.At(j - 1)
    ensures Segment(net, r, lay', w')
  {
  }

  lemma {:induction false} PrependedExplored(net: seq<Table>, r: int, lay: Layout, w: Walk, lay': Layout,
      w': Walk, q: int)
    requires Good(net, r, lay, w) && Asked(net, lay, w, q)
    requires w' == w.(entries := [Entry(net[q], false, 1)] + w.entries, index := 0, pending := Check) && w.insertBefore
    requires lay'.root == lay.root + 1 && lay'.At(0) == q
    requires forall j :: 1 <= j <= |w.entries| ==> lay'.At(j) == lay.At(j - 1)
    requires Segment(net, r, lay', w')
    ensures Explored(net, r, lay', w')
  {
    AskedHasNeighbor(net, r, lay, w, q);
    hide Layout.At, Degree, Adjacent;
    assert forall j :: 1 <= j <= |w.entries| ==> w'.entries[j] == w.entries[j - 1];
  }

  lemma {:induction false} AskedHasNeighbor(net: seq<Table>, r: int, lay: Layout, w: Walk, q: int)
    requires Segment(net, r, lay, w) && Asked(net, lay, w, q)
    ensures Degree(|net|, q) >= 1
  {
  }
}
