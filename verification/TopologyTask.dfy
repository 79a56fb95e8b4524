/**
 The discovery task of src/lib/bcmp/bcmp_topology.cpp: a doubly linked list of neighbor tables with a
 cursor, updated in place by the events of the task's loop.  The contracts say that its links take
 the steps of TopologyWalk.
 */
module TopologyTask {
  import opened TopologyWalk
  import opened TopologyRun

  // neighborTableEntry_t
  class Node {
    var prevNode: Node?
    var nextNode: Node?
    var portsExplored: nat
    var isRoot: bool
    const table: Table

    constructor (table: Table, isRoot: bool)
      ensures this.table == table && this.isRoot == isRoot
      ensures prevNode == null && nextNode == null && portsExplored == 0
    {
      this.table, this.isRoot := table, isRoot;
      prevNode, nextNode, portsExplored := null, null, 0;
    }

    ghost function View(): Entry
      reads this
    {
      Entry(table, isRoot, portsExplored)
    }
  }

  // networkTopology_t
  class NetworkTopology {
    var front: Node?
    var back: Node?
    var cursor: Node?
    var length: nat
    var index: int

    ghost var nodes: seq<Node>
    ghost var entries: seq<Entry>

    // The links of the nodes are each other's inverses, in the order of the list, and `length`
    // counts them (in 8 bits).
    ghost predicate Valid()
      reads this, nodes
    {
      && length == |nodes| == |entries| <= 255
      && (forall i, j :: 0 <= i < j < |nodes| ==> nodes[i] != nodes[j])
      && (forall i {:trigger entries[i]} {:trigger nodes[i].View()} ::
           0 <= i < |nodes| ==> nodes[i].View() == entries[i])
      && Linked()
    }

    ghost predicate Linked()
      reads this, nodes
    {
      && front == (if nodes == [] then null else nodes[0])
      && back == (if nodes == [] then null else nodes[|nodes| - 1])
      && (forall i {:trigger nodes[i].prevNode} ::
           0 <= i < |nodes| ==> nodes[i].prevNode == if i == 0 then null else nodes[i - 1])
      && (forall i {:trigger nodes[i].nextNode} ::
           0 <= i < |nodes| ==> nodes[i].nextNode == if i == |nodes| - 1 then null else nodes[i + 1])
    }

    // The cursor is the node at the index.
    ghost predicate CursorAtIndex()
      reads this
    {
      0 <= index < |nodes| && cursor == nodes[index]
    }

    // newNetworkTopology
    constructor ()
      ensures Valid() && nodes == [] && entries == [] && index == -1 && cursor == null
    {
      front, back, cursor, length, index := null, null, null, 0, -1;
      nodes, entries := [], [];
    }

    method MoveFront()
      requires Valid()
      modifies this`cursor, this`index
      ensures nodes != [] ==> CursorAtIndex() && index == 0
      ensures nodes == [] ==> index == old(index) && cursor == old(cursor)
    {
      if length != 0 {
        cursor := front;
        index := 0;
      }
    }

    method MovePrev()
      requires Valid() && (index > 0 ==> CursorAtIndex())
      modifies this`cursor, this`index
      ensures Valid()
      ensures old(index) > 0 ==> CursorAtIndex() && index == old(index) - 1
      ensures old(index) <= 0 ==> index == old(index) && cursor == old(cursor)
    {
      if index > 0 {
        cursor := cursor.prevNode;
        index := index - 1;
      }
    }

    method MoveNext()
      requires Valid() && (index < |nodes| - 1 ==> CursorAtIndex())
      modifies this`cursor, this`index
      ensures Valid()
      ensures old(index) < |nodes| - 1 ==> CursorAtIndex() && index == old(index) + 1
      ensures old(index) >= |nodes| - 1 ==> index == old(index) && cursor == old(cursor)
    {
      if index < length - 1 {
        cursor := cursor.nextNode;
        index := index + 1;
      }
    }

    // Inserts at the front.  On an empty list the index is advanced twice.
    method Prepend(entry: Node)
      requires Valid() && entry !in nodes && |nodes| < 255
      requires entry.prevNode == null && entry.nextNode == null
      modifies this`front, this`back, this`length, this`index, this`nodes, this`entries, nodes, entry
      ensures Valid() && nodes == [entry] + old(nodes) && entries == [old(entry.View())] + old(entries)
      ensures index == (if old(nodes) == [] then (if old(index) >= -1 then old(index) + 2 else old(index) + 1)
                        else if old(index) >= 0 then old(index) + 1 else old(index))
    {
      if length == 0 {
        front := entry;
        back := entry;
        index := index + 1;
      } else {
        entry.nextNode := front;
        front.prevNode := entry;
        front := entry;
      }
      length := length + 1;
      if index >= 0 {
        index := index + 1;
      }
      entries := [entry.View()] + entries;
      nodes := [entry] + nodes;
    }

    // Inserts at the end.
    method Append(entry: Node)
      requires Valid() && entry !in nodes && |nodes| < 255
      requires entry.prevNode == null && entry.nextNode == null
      modifies this`front, this`back, this`length, this`index, this`nodes, this`entries, nodes, entry
      ensures Valid() && nodes == old(nodes) + [entry] && entries == old(entries) + [old(entry.View())]
      ensures index == if old(nodes) == [] then old(index) + 1 else old(index)
    {
      if length == 0 {
        front := entry;
        back := entry;
        index := index + 1;
      } else {
        entry.prevNode := back;
        back.nextNode := entry;
        back := entry;
      }
      length := length + 1;
      entries := entries + [entry.View()];
      nodes := nodes + [entry];
    }

    // Links a node between two neighbors.
    method Splice(before: Node, after: Node, entry: Node, ghost k: nat)
      requires Valid() && 0 < k < |nodes| < 255 && before == nodes[k - 1] && after == nodes[k]
      requires entry !in nodes
      modifies this`length, this`nodes, this`entries, before`nextNode, after`prevNode, entry`prevNode, entry`nextNode
      ensures Valid()
      ensures nodes == old(nodes)[..k] + [entry] + old(nodes)[k..]
      ensures entries == old(entries)[..k] + [old(entry.View())] + old(entries)[k..]
    {
      entry.nextNode := after;
      after.prevNode := entry;
      entry.prevNode := before;
      before.nextNode := entry;
      length := length + 1;
      entries := entries[..k] + [entry.View()] + entries[k..];
      nodes := nodes[..k] + [entry] + nodes[k..];
      forall i {:trigger nodes[i].View()} | 0 <= i < |nodes| ensures nodes[i].View() == entries[i] {
        if i < k { assert old(nodes[i].View()) == old(entries)[i]; }
        if i > k { assert old(nodes[i - 1].View()) == old(entries)[i - 1]; }
      }
    }

    // Inserts behind the cursor, or into an empty list.
    method InsertAfter(entry: Node)
      requires Valid() && (nodes == [] || CursorAtIndex()) && entry !in nodes && |nodes| < 255
      requires entry.prevNode == null && entry.nextNode == null
      modifies this`front, this`back, this`length, this`index, this`nodes, this`entries, nodes, entry
      ensures Valid()
      ensures old(nodes) == [] ==> nodes == [entry] && entries == [old(entry.View())] && index == old(index) + 1
      ensures old(nodes) != [] ==>
                && CursorAtIndex() && index == old(index)
                && nodes == old(nodes)[..old(index) + 1] + [entry] + old(nodes)[old(index) + 1..]
                && entries == old(entries)[..old(index) + 1] + [old(entry.View())] + old(entries)[old(index) + 1..]
    {
      if length == 0 {
        Append(entry);
      } else if index == length - 1 {
        Append(entry);
      } else {
        Splice(cursor, cursor.nextNode, entry, index + 1);
      }
    }

    // Inserts before the cursor, or into an empty list, where the index is advanced twice.
    method InsertBefore(entry: Node)
      requires Valid() && (nodes == [] || CursorAtIndex()) && entry !in nodes && |nodes| < 255
      requires entry.prevNode == null && entry.nextNode == null
      modifies this`front, this`back, this`length, this`index, this`nodes, this`entries, nodes, entry
      ensures Valid()
      ensures old(nodes) == [] ==>
                && nodes == [entry] && entries == [old(entry.View())]
                && index == if old(index) >= -1 then old(index) + 2 else old(index) + 1
      ensures old(nodes) != [] ==>
                && CursorAtIndex() && index == old(index) + 1
                && nodes == old(nodes)[..old(index)] + [entry] + old(nodes)[old(index)..]
                && entries == old(entries)[..old(index)] + [old(entry.View())] + old(entries)[old(index)..]
    {
      if length == 0 {
        Prepend(entry);
      } else if index == 0 {
        Prepend(entry);
      } else {
        Splice(cursor.prevNode, cursor, entry, index);
        index := index + 1;
      }
    }

    // Removes the last node, if there is one; the index is left as it is unless the list becomes empty,
    // and a cursor on the removed node goes to the one before it.
    method DeleteBack()
      requires Valid()
      modifies this, nodes
      ensures Valid()
      ensures old(nodes) == [] ==> nodes == [] && index == old(index) && cursor == old(cursor)
      ensures old(nodes) != [] ==>
        nodes == old(nodes)[..|old(nodes)| - 1] && entries == old(entries)[..|old(nodes)| - 1]
      ensures old(|nodes|) == 1 ==> index == -1 && cursor == null
      ensures old(|nodes|) > 1 ==>
        && index == old(index)
        && cursor == if index == old(|nodes|) - 1 then nodes[|nodes| - 1] else old(cursor)
    {
      if length == 0 { return; }
      if length > 1 {
        assert nodes[length - 1] == back && nodes[length - 2].nextNode == back;
        back := back.prevNode;
        back.nextNode := null;
        if index == length - 1 {
          cursor := back;
        }
      } else {
        cursor := null;
        back := null;
        front := null;
        index := -1;
      }
      length := length - 1;
      entries := entries[..|entries| - 1];
      nodes := nodes[..|nodes| - 1];
    }

    method Clear()
      requires Valid()
      modifies this, nodes
      ensures Valid() && nodes == []
      ensures old(nodes) != [] ==> index == -1 && cursor == null
    {
      while length != 0
        invariant Valid() && nodes <= old(nodes)
        invariant nodes == [] && old(nodes) != [] ==> index == -1 && cursor == null
      {
        DeleteBack();
      }
    }

    method IncrementPortCount()
      requires Valid() && (cursor == null || CursorAtIndex())
      modifies (if cursor == null then {} else {cursor})`portsExplored, this`entries
      ensures Valid()
      ensures cursor == null ==> entries == old(entries)
      ensures cursor != null ==> CursorAtIndex() && entries == old(entries)[index := Explore(old(entries)[index])]
    {
      if cursor != null {
        cursor.portsExplored := (cursor.portsExplored + 1) % 256;
        entries := entries[index := cursor.View()];
      }
    }

    method NodeIdInTopology(nodeId: nat) returns (found: bool)
      requires Valid()
      ensures found <==> InTopology(entries, nodeId)
    {
      var temp := front;
      ghost var k := 0;
      while temp != null
        invariant 0 <= k <= |nodes|
        invariant temp == if k < |nodes| then nodes[k] else null
        invariant forall j :: 0 <= j < k ==> entries[j].table.nodeId != nodeId
        decreases |nodes| - k
      {
        assert nodes[k].View() == entries[k];
        if temp.table.nodeId == nodeId {
          return true;
        }
        temp := temp.nextNode;
        k := k + 1;
      }
      return false;
    }

    method CheckNeighborNodeIds() returns (nodeId: nat)
      requires Valid() && CursorAtIndex()
      ensures nodeId == NewNeighbor(entries, entries[index].table.neighbors, 0)
    {
      assert nodes[index].View() == entries[index];
      var neighbors := cursor.table.neighbors;
      for count := 0 to |neighbors|
        invariant NewNeighbor(entries, neighbors, 0) == NewNeighbor(entries, neighbors, count)
      {
        var found := NodeIdInTopology(neighbors[count].nodeId);
        if !found {
          return neighbors[count].nodeId;
        }
      }
      return 0;
    }

    method CheckAllPortsExplored() returns (all: bool)
      requires Valid() && CursorAtIndex()
      ensures all <==> AllPortsExplored(entries[index])
    {
      assert nodes[index].View() == entries[index];
      var t := cursor.table;
      var onlineCount := 0;
      for count := 0 to |t.neighbors|
        invariant onlineCount + OnlineCount(t, count) == OnlineCount(t, 0)
      {
        var port := t.neighbors[count].port;
        if 1 <= port <= |t.ports| && t.ports[port - 1] {
          onlineCount := onlineCount + 1;
        }
      }
      all := onlineCount == cursor.portsExplored;
    }
  }

  // AddNode in the order of the source: insert the node, move to it, count the port it came from.
  lemma {:induction false} AddNodeIs(w: Walk, t: Table)
    requires CursorIn(w)
    ensures InTopology(w.entries, t.nodeId) ==> AddNode(w, t) == w.(pending := Check)
    ensures !InTopology(w.entries, t.nodeId) ==>
              var k := if w.insertBefore then w.index else w.index + 1;
              var inserted := w.entries[..k] + [Entry(t, false, 0)] + w.entries[k..];
              AddNode(w, t) == w.(entries := inserted[k := Explore(inserted[k])], index := k, pending := Check)
  {
    var k := if w.insertBefore then w.index else w.index + 1;
    var inserted := w.entries[..k] + [Entry(t, false, 0)] + w.entries[k..];
    assert inserted[k := Explore(inserted[k])] == w.entries[..k] + [Explore(Entry(t, false, 0))] + w.entries[k..];
  }

  // The task's static variables and its loop.
  class DiscoveryTask {
    const topology: NetworkTopology
    var insertBefore: bool
    var pending: Pending

    ghost predicate Valid()
      reads this, topology, topology.nodes
    {
      topology.Valid() && topology.CursorAtIndex()
    }

    ghost function View(): Walk
      reads this, topology
    {
      Walk(topology.entries, topology.index, insertBefore, pending)
    }

    // process_start_topology_event
    constructor (own: Table)
      ensures Valid() && View() == TopologyWalk.Start(own)
      ensures fresh(topology) && fresh(topology.nodes)
    {
      var list := new NetworkTopology();
      var entry := new Node(own, true);
      list.Append(entry);
      list.MoveFront();
      topology, insertBefore, pending := list, false, Check;
    }

    method MoveBackOne()
      requires Valid()
      modifies topology`cursor, topology`index
      ensures Valid() && topology.index == old(MoveBack(View()))
    {
      if insertBefore {
        topology.MoveNext();
      } else {
        topology.MovePrev();
      }
    }

    // process_check_node_event
    method ProcessCheckNode()
      requires Valid() && pending.Check?
      modifies this`insertBefore, this`pending, topology, topology.nodes
      ensures Valid() && View() == CheckNode(old(View()))
      ensures topology.nodes == old(topology.nodes)
    {
      hide AllPortsExplored, NewNeighbor, NetworkTopology.Linked;
      assert topology.nodes[topology.index].View() == topology.entries[topology.index];
      var all := topology.CheckAllPortsExplored();
      if all {
        if topology.cursor.isRoot {
          pending := Done;
        } else {
          MoveBackOne();
          pending := Check;
        }
      } else {
        if topology.cursor.isRoot && topology.cursor.portsExplored == 1 {
          insertBefore := true;
        }
        var newNode := topology.CheckNeighborNodeIds();
        topology.IncrementPortCount();
        if newNode != 0 {
          pending := Waiting(newNode);
        } else {
          MoveBackOne();
          pending := Check;
        }
      }
    }

    // BCMP_TOPO_EVT_ADD_NODE: the answer to the request has come.
    method ProcessAddNode(table: Table)
      requires Valid() && |topology.nodes| < 255
      modifies this`pending, topology, topology.nodes
      ensures Valid() && View() == AddNode(old(View()), table)
      ensures forall n :: n in topology.nodes ==> n in old(topology.nodes) || fresh(n)
    {
      hide InTopology, Explore, AddNode, NetworkTopology.Linked;
      ghost var w := View();
      AddNodeIs(w, table);
      var entry := new Node(table, false);
      var known := topology.NodeIdInTopology(table.nodeId);
      if !known {
        InsertExplored(entry);
      }
      pending := Check;
    }

    method InsertExplored(entry: Node)
      requires Valid() && |topology.nodes| < 255 && entry !in topology.nodes
      requires entry.prevNode == null && entry.nextNode == null
      modifies topology, topology.nodes, entry
      ensures Valid() && topology.index == if insertBefore then old(topology.index) else old(topology.index) + 1
      ensures topology.nodes == old(topology.nodes)[..topology.index] + [entry] + old(topology.nodes)[topology.index..]
      ensures var k := topology.index;
              var inserted := old(topology.entries)[..k] + [old(entry.View())] + old(topology.entries)[k..];
              topology.entries == inserted[k := Explore(inserted[k])]
    {
      hide Explore;
      InsertAndMove(entry);
      topology.IncrementPortCount();
    }

    method InsertAndMove(entry: Node)
      requires Valid() && |topology.nodes| < 255 && entry !in topology.nodes
      requires entry.prevNode == null && entry.nextNode == null
      modifies topology, topology.nodes, entry
      ensures Valid() && topology.index == if insertBefore then old(topology.index) else old(topology.index) + 1
      ensures topology.nodes == old(topology.nodes)[..topology.index] + [entry] + old(topology.nodes)[topology.index..]
      ensures topology.entries
        == old(topology.entries)[..topology.index] + [old(entry.View())] + old(topology.entries)[topology.index..]
    {
      hide NetworkTopology.Valid;
      if insertBefore {
        topology.InsertBefore(entry);
        topology.MovePrev();
      } else {
        topology.InsertAfter(entry);
        topology.MoveNext();
      }
    }

    // BCMP_TOPO_EVT_TIMEOUT
    method ProcessTimeout()
      requires Valid()
      modifies this`pending, topology`cursor, topology`index
      ensures Valid() && View() == TimedOut(old(View()))
    {
      MoveBackOne();
      pending := Check;
    }

    // One turn of the loop; a node that is asked answers with its own table, or the request times out.
    method HandleEvent(net: seq<Table>, answer: bool, ghost r: nat, ghost lay: Layout)
      requires Valid() && Line(net) && Good(net, r, lay, View()) && !pending.Done?
      modifies this`insertBefore, this`pending, topology, topology.nodes
      ensures Valid() && |net| > 0 && CursorIn(old(View())) && View() == Step(net, old(View()), answer)
      ensures forall n :: n in topology.nodes ==> n in old(topology.nodes) || fresh(n)
    {
      hide Line, Good, Step, CheckNode, AddNode, TimedOut, Reply, CursorIn;
      GoodFacts(net, r, lay, View());
      StepIs(net, View(), answer);
      RoomForOne(net, r, lay, View());
      match pending {
        case Check => ProcessCheckNode();
        case Waiting(target) =>
          if answer {
            ProcessAddNode(Reply(net, target, 0));
          } else {
            ProcessTimeout();
          }
      }
    }

    /** bcmp_topology_thread: handles events until the discovery has ended; request i is answered or
        times out as `answered` says. */
    method Discover(net: seq<Table>, answered: nat -> bool, ghost r: nat)
      requires Valid() && Line(net) && r < |net| && View() == TopologyWalk.Start(net[r])
      requires !LosesItself(net, r, answered)
      modifies this`insertBefore, this`pending, topology, topology.nodes
      ensures Valid() && pending.Done? && View() == Discovery(net, r, answered).walk
      ensures ListIsSegment(net, r, topology.entries)
      ensures (forall i: nat :: answered(i)) ==>
        (ListsLine(net, topology.entries, false) || ListsLine(net, topology.entries, true))
          && OnlyRoot(net, r, topology.entries)
    {
      hide Line, Good, Step, After, LosesCursor, LosesItself, TopologyRun.Discover, Discovery, ListsLine, OnlyRoot,
        ListIsSegment, TopologyWalk.Start, Unexplored, WayBack, CursorIn;
      DiscoveryStarts(net, r, answered);
      DiscoveryWillEnd(net, r, answered);
      ghost var lay := Layout(r, 1, 0);
      GoodLayout(net, r, lay, View());
      var i: nat := 0;
      while pending != Done
        invariant Valid() && Good(net, r, lay, View())
        invariant TopologyRun.Discover(net, r, lay, View(), answered, i) == Discovery(net, r, answered)
        invariant |net| > 0 && CursorIn(View()) && 0 <= lay.root < |View().entries|
        invariant forall n :: n in topology.nodes ==> n in old(topology.nodes) || fresh(n)
        invariant forall k ::
          0 <= k < |topology.nodes| ==> topology.nodes[k] in old(topology.nodes) || fresh(topology.nodes[k])
        decreases Unexplored(net, r, lay, View()), WayBack(lay, View())
      {
        ghost var w := View();
        DiscoveryGoesOn(net, r, lay, w, answered, i);
        var waiting := pending.Waiting?;
        HandleEvent(net, answered(i), r, lay);
        lay := After(net, lay, w, answered(i));
        if waiting { i := i + 1; }
      }
      DiscoveryDone(net, r, lay, View(), answered, i);
    }
  }

  lemma {:induction false} StepIs(net: seq<Table>, w: Walk, answer: bool)
    requires |net| > 0 && CursorIn(w)
    ensures w.pending.Check? ==> Step(net, w, answer) == CheckNode(w)
    ensures w.pending.Waiting? ==>
      Step(net, w, answer) == if answer then AddNode(w, Reply(net, w.pending.target, 0)) else TimedOut(w)
  {
    hide CheckNode, AddNode, TimedOut, Reply;
  }

  lemma {:induction false} DiscoveryStarts(net: seq<Table>, r: int, answered: nat -> bool)
    requires Line(net) && 0 <= r < |net|
    ensures Good(net, r, Layout(r, 1, 0), TopologyWalk.Start(net[r]))
    ensures TopologyRun.Discover(net, r, Layout(r, 1, 0), TopologyWalk.Start(net[r]), answered, 0)
      == Discovery(net, r, answered)
  {
    hide TopologyRun.Discover, Line, Good, TopologyWalk.Start;
    StartGood(net, r);
  }

  lemma {:induction false} DiscoveryWillEnd(net: seq<Table>, r: int, answered: nat -> bool)
    requires Line(net) && 0 <= r < |net| && !LosesItself(net, r, answered)
    ensures Discovery(net, r, answered).Ended?
  {
    hide Line, Good, TopologyRun.Discover;
    DiscoveryStarts(net, r, answered);
    LostIff(net, r, Layout(r, 1, 0), TopologyWalk.Start(net[r]), answered, 0);
  }

  lemma {:induction false} DiscoveryDone(net: seq<Table>, r: int, lay: Layout, w: Walk, answered: nat -> bool, i: nat)
    requires Line(net) && 0 <= r < |net| && Good(net, r, lay, w) && w.pending.Done?
    requires TopologyRun.Discover(net, r, lay, w, answered, i) == Discovery(net, r, answered)
    ensures w == Discovery(net, r, answered).walk
    ensures ListIsSegment(net, r, w.entries)
    ensures (forall k: nat {:trigger answered(k)} :: answered(k)) ==>
      (ListsLine(net, w.entries, false) || ListsLine(net, w.entries, true)) && OnlyRoot(net, r, w.entries)
  {
    hide Line, Good, Discovery, ListsLine, OnlyRoot;
    GoodIsLaidOut(net, r, lay, w);
    if forall k: nat {:trigger answered(k)} :: answered(k) {
      DiscoversWholeLine(net, r, answered);
    }
  }

  lemma {:induction false} GoodLayout(net: seq<Table>, r: int, lay: Layout, w: Walk)
    requires Good(net, r, lay, w)
    ensures |net| > 0 && CursorIn(w) && 0 <= lay.root < |w.entries|
    ensures Unexplored(net, r, lay, w) >= 0 && WayBack(lay, w) >= 0
  {
    GoodFacts(net, r, lay, w);
    hide Explored, Asked, Unexplored, WayBack;
  }

  // While a discovery that ends is under way, the cursor is not about to be lost.
  lemma {:induction false} DiscoveryGoesOn(net: seq<Table>, r: int, lay: Layout, w: Walk, answered: nat -> bool, i: nat)
    requires Line(net) && Good(net, r, lay, w) && !w.pending.Done?
    requires TopologyRun.Discover(net, r, lay, w, answered, i).Ended?
    ensures |net| > 0 && CursorIn(w) && 0 <= lay.root < |w.entries|
    ensures var lay', w' := After(net, lay, w, answered(i)), Step(net, w, answered(i));
            && Good(net, r, lay', w')
            && CursorIn(w') && 0 <= lay'.root < |w'.entries|
            && TopologyRun.Discover(net, r, lay', w', answered, if w.pending.Waiting? then i + 1 else i)
               == TopologyRun.Discover(net, r, lay, w, answered, i)
            && (0 <= Unexplored(net, r, lay', w') < Unexplored(net, r, lay, w)
                || (Unexplored(net, r, lay', w') == Unexplored(net, r, lay, w)
                     && 0 <= WayBack(lay', w') < WayBack(lay, w)))
  {
    hide Line, Good, Step, After, LosesCursor, Unexplored, WayBack, CursorIn;
    GoodLayout(net, r, lay, w);
    if !LosesCursor(lay, w, answered(i)) {
      StepGood(net, r, lay, w, answered(i));
      GoodLayout(net, r, After(net, lay, w, answered(i)), Step(net, w, answered(i)));
    }
  }

  // While a node is asked for, the list is not full.
  lemma {:induction false} RoomForOne(net: seq<Table>, r: int, lay: Layout, w: Walk)
    requires Line(net) && Good(net, r, lay, w)
    ensures w.pending.Waiting? ==> |w.entries| < 255
  {
    if w.pending.Waiting? {
      var q :| Asked(net, lay, w, q);
      ListedIff(net, r, lay, w, q);
      AddNodeGood(net, r, lay, w, q);
      assert |AddNode(w, net[q]).entries| == |w.entries| + 1;
    }
  }
}
