/**
 The report builder's list of elements and its task (src/apps/bridge/reportBuilder.cpp) in place.
 */
module ReportBuilder {

  import opened ReportAccumulation

  /** report_builder_element_t. */
  class Node {
    const id: nat
    const data: array<Slot>
    var counter: nat
    var next: Node?
    var prev: Node?

    /** newElement: cleared slots, and the first sample. */
    constructor (id: nat, sample: Option<nat>, samplesPerReport: nat, period: nat)
      requires period < samplesPerReport
      ensures fresh(data) && Value() == Filed(New(id, samplesPerReport), sample, period)
      ensures next == null && prev == null
    {
      this.id, counter := id, 0;
      data := new Slot[samplesPerReport](_ => Zeroed);
      next, prev := null, null;
      new;
      assert Value() == New(id, samplesPerReport);
      var _ := AddSampleToElement(sample, period);
    }

    ghost function Value(): Element
      reads this`counter, data
    {
      Element(id, data[..], counter)
    }

    /** addSampleToElement. The source writes whether or not there is a slot left; here only what lies
        behind the last slot is not modelled. */
    method AddSampleToElement(sample: Option<nat>, period: nat) returns (fits: bool)
      requires period < data.Length
      modifies this`counter, data
      ensures fits == (Place(old(Value()), period) < data.Length)
      ensures Value() == if fits then Filed(old(Value()), sample, period)
        else old(Value()).(counter := old(counter) + 1)
    {
      ghost var was := Value();
      while counter < period
        invariant was.counter <= counter <= Place(was, period)
        invariant forall j :: was.counter <= j < counter ==> data[j] == NaN
        invariant forall j :: 0 <= j < data.Length && (j < was.counter || j >= counter) ==> data[j] == was.data[j]
      {
        data[counter] := NaN;
        counter := counter + 1;
      }
      if counter >= data.Length {
        assert data[..] == was.data;
        counter := counter + 1;
        return false;
      }
      data[counter] := if sample == None then NaN else Reading(sample.value);
      counter, fits := counter + 1, true;
      assert Value().data == Filed(was, sample, period).data;
    }
  }

  ghost function Values(ns: seq<Node>): (es: seq<Element>)
    reads ns, set n | n in ns :: n.data
    ensures |es| == |ns|
    ensures forall i :: 0 <= i < |ns| ==> es[i] == ns[i].Value()
  {
    seq(|ns|, i requires 0 <= i < |ns| reads ns, set n | n in ns :: n.data => ns[i].Value())
  }

  lemma {:induction false} ValuesAppended(ns: seq<Node>, n: Node)
    ensures Values(ns + [n]) == Values(ns) + [n.Value()]
  {
  }

  class ElementList {
    var head: Node?
    var size: nat
    ghost var nodes: seq<Node>
    ghost var repr: set<object>

    ghost predicate Linked()
      reads this`head, this`nodes, this`repr, repr, nodes
    {
      && (forall n :: n in nodes ==> n in repr && n.data in repr)
      && (forall i, j :: 0 <= i < j < |nodes| ==> nodes[i] != nodes[j] && nodes[i].data != nodes[j].data)
      && head == At(0)
      && (forall i :: 0 <= i < |nodes| ==> nodes[i].next == At(i + 1))
      && (forall i :: 0 <= i < |nodes| ==> nodes[i].prev == if i == 0 then null else nodes[i - 1])
    }

    ghost function At(i: nat): Node?
      reads this`nodes
    {
      if i < |nodes| then nodes[i] else null
    }

    // The first element is not counted.
    ghost predicate Valid()
      reads this, repr, nodes
    {
      this !in repr && Linked() && size == if |nodes| == 0 then 0 else |nodes| - 1
    }

    ghost function Contents(): seq<Element>
      reads this, nodes, set n | n in nodes :: n.data
    {
      Values(nodes)
    }

    constructor ()
      ensures Valid() && repr == {} && Contents() == []
    {
      head, size, nodes, repr := null, 0, [], {};
    }

    lemma {:induction false} InTheList(i: nat)
      requires Linked() && i <= |nodes|
      ensures head == At(0)
      ensures i < |nodes| ==> nodes[i] in repr && nodes[i].data in repr && nodes[i].next == At(i + 1)
    {
    }

    lemma {:induction false} AllInRepr()
      requires Linked()
      ensures forall n :: n in nodes ==> n in repr
    {
    }

    method FindElement(node: nat) returns (found: Node?)
      requires Valid()
      ensures found == At(Find(Contents(), node))
    {
      hide Linked, Find;
      InTheList(0);
      found := head;
      ghost var i := 0;
      while found != null && found.id != node
        invariant i <= |nodes| && found == At(i)
        invariant forall j :: 0 <= j < i ==> nodes[j].id != node
        decreases |nodes| - i
      {
        InTheList(i);
        found, i := found.next, i + 1;
      }
      FindIs(Contents(), node, i);
    }

    // A new node put behind the last one.
    twostate lemma {:induction false} Appended(new node: Node)
      requires old(Linked()) && node !in old(repr) && node.data !in old(repr) && node.next == null
      requires nodes == old(nodes) + [node] && repr == old(repr) + {node, node.data}
      requires head == if old(nodes) == [] then node else old(head)
      requires node.prev == if old(nodes) == [] then null else old(nodes)[|nodes| - 2]
      requires old(nodes) != [] ==>
        old(nodes)[|nodes| - 2].next == node && old(nodes)[|nodes| - 2].prev == old(nodes[|nodes| - 1].prev)
      requires forall n ::
        n in old(nodes) && n != old(nodes)[|nodes| - 2] ==> n.next == old(n.next) && n.prev == old(n.prev)
      ensures Linked()
    {
      forall i, j | 0 <= i < j < |nodes| ensures nodes[i] != nodes[j] && nodes[i].data != nodes[j].data {
        assert nodes[i] in old(nodes);
      }
      forall i | 0 <= i < |nodes|
        ensures nodes[i].next == At(i + 1) && nodes[i].prev == if i == 0 then null else nodes[i - 1] {
        assert i < |nodes| - 1 ==> nodes[i] in old(nodes);
        assert i < |nodes| - 1 ==>
          old(nodes)[i] == nodes[i] && old(nodes[i].prev) == if i == 0 then null else old(nodes)[i - 1];
      }
    }

    /** append: `curr` is the last element, so there is none after it to be linked back. */
    method Append(curr: Node?, id: nat, sample: Option<nat>, samplesPerReport: nat, period: nat)
      requires Valid() && period < samplesPerReport
      requires curr == if nodes == [] then null else nodes[|nodes| - 1]
      modifies this, repr
      ensures Valid() && fresh(repr - old(repr))
      ensures Contents() == old(Contents()) + [Filed(New(id, samplesPerReport), sample, period)]
    {
      hide Linked, Filed, New, Values;
      if nodes != [] { InTheList(|nodes| - 1); }
      var element := new Node(id, sample, samplesPerReport, period);
      LinkBehind(curr, element);
    }

    method LinkBehind(curr: Node?, element: Node)
      requires Valid() && curr == if nodes == [] then null else nodes[|nodes| - 1]
      requires element !in repr && element.data !in repr && element.next == null && element.prev == null
      modifies this, element`next, element`prev, (if curr == null then {} else {curr})`next
      ensures Valid() && repr == old(repr) + {element, element.data}
      ensures Contents() == old(Contents()) + [old(element.Value())]
    {
      hide Linked, Values;
      InTheList(0);
      AllInRepr();
      if nodes != [] { InTheList(|nodes| - 1); }
      if curr != null {
        element.next := curr.next;
        element.prev := curr;
        curr.next := element;
        size := size + 1;
      } else {
        head := element;
      }
      assert Values(nodes) == old(Values(nodes));
      nodes, repr := nodes + [element], repr + {element, element.data};
      Appended(element);
      ValuesAppended(old(nodes), element);
    }

    /** findElementAndAddSampleToElement. */
    method FindAndAddSample(node: nat, sample: Option<nat>, samplesPerReport: nat, period: nat) returns (fits: bool)
      requires Valid() && period < samplesPerReport && SizedTo(Contents(), samplesPerReport)
      modifies this, repr
      ensures Valid() && fresh(repr - old(repr))
      ensures fits == Fits(old(Contents()), node, samplesPerReport, period)
      ensures fits ==> Contents() == AddSample(old(Contents()), node, sample, samplesPerReport, period)
      ensures !fits ==> Find(old(Contents()), node) < |old(Contents())| && Contents() == Overrun(old(Contents()), node)
    {
      hide Linked, Filed, New, Find, Values;
      fits := true;
      ghost var k, was := Find(Contents(), node), Contents();
      var element := FindElement(node);
      if element != null {
        fits := AddTo(k, element, sample, samplesPerReport, period);
      } else {
        InTheList(0);
        if head == null && size == 0 {
          Append(null, node, sample, samplesPerReport, period);
        } else {
          var last: Node := head;
          ghost var i := 0;
          InTheList(i);
          while last.next != null
            invariant Valid() && nodes == old(nodes) && repr == old(repr) && Contents() == was
            invariant i < |nodes| && last == nodes[i] && last.next == At(i + 1)
            decreases |nodes| - i
          {
            last, i := last.next, i + 1;
            InTheList(i);
          }
          Append(last, node, sample, samplesPerReport, period);
        }
      }
    }

    // The element found is the k-th.
    method AddTo(ghost k: nat, element: Node, sample: Option<nat>, samplesPerReport: nat, period: nat)
        returns (fits: bool)
      requires Valid() && period < samplesPerReport && SizedTo(Contents(), samplesPerReport)
      requires k < |nodes| && element == nodes[k]
      modifies repr
      ensures Valid()
      ensures fits == (Place(old(Contents())[k], period) < samplesPerReport)
      ensures var e := old(Contents())[k];
              Contents() == old(Contents())[k := if fits then Filed(e, sample, period)
                else e.(counter := e.counter + 1)]
    {
      hide Linked, Filed, Values;
      ghost var was := Contents();
      InTheList(k);
      Apart(k);
      fits := element.AddSampleToElement(sample, period);
      StillLinked();
      OthersKept(k);
      assert Contents()
        == was[k := if fits then Filed(was[k], sample, period) else was[k].(counter := was[k].counter + 1)];
    }

    // Writing nothing but one node's counter and slots leaves the list linked.
    twostate lemma {:induction false} StillLinked()
      requires old(Linked()) && nodes == old(nodes) && head == old(head) && repr == old(repr)
      requires forall n :: n in nodes ==> n.next == old(n.next) && n.prev == old(n.prev)
      ensures Linked()
    {
      forall i | 0 <= i < |nodes|
        ensures nodes[i].next == At(i + 1) && nodes[i].prev == if i == 0 then null else nodes[i - 1] {
        assert nodes[i] in nodes;
        assert old(nodes[i].prev) == if i == 0 then null else old(nodes[i - 1]);
      }
    }

    // And the other nodes as they were.
    twostate lemma {:induction false} OthersKept(k: nat)
      requires k < |nodes| && nodes == old(nodes)
      requires forall i :: 0 <= i < |nodes| && i != k ==> nodes[i] != nodes[k] && nodes[i].data != nodes[k].data
      requires forall n :: n in nodes && n != nodes[k] && n.data != nodes[k].data ==> n.Value() == old(n.Value())
      ensures forall i :: 0 <= i < |nodes| && i != k ==> Values(nodes)[i] == old(Values(nodes)[i])
    {
      hide Values;
      forall i | 0 <= i < |nodes| && i != k ensures nodes[i].Value() == old(nodes[i].Value()) {
        assert nodes[i] in nodes;
      }
    }

    lemma {:induction false} Apart(k: nat)
      requires Linked() && k < |nodes|
      ensures forall i :: 0 <= i < |nodes| && i != k ==> nodes[i] != nodes[k] && nodes[i].data != nodes[k].data
    {
    }

    method Clear()
      requires Valid()
      modifies this
      ensures Valid() && repr == {} && Contents() == []
    {
      hide Linked, Values;
      InTheList(0);
      var element := head;
      ghost var i := 0;
      while element != null
        invariant Valid() && i <= |nodes| && element == At(i)
        decreases |nodes| - i
      {
        InTheList(i);
        element, i := element.next, i + 1;
      }
      head, size, nodes, repr := null, 0, [], {};
      assert Linked() && Values([]) == [] by { EmptyIsLinked(); }
    }

    lemma {:induction false} EmptyIsLinked()
      requires head == null && nodes == []
      ensures Linked() && Values(nodes) == []
    {
    }
  }

  // The row a member adds to a report, and the elements after it.
  function RowOf(es: seq<Element>, m: Member, samplesPerReport: nat): (r: (seq<(nat, seq<Slot>)>, seq<Element>))
    requires samplesPerReport > 0
  {
    var k := Find(es, m.node);
    if k < |es| then ([(m.node, es[k].data)], es)
    else if m.known then
      var es' := AddSample(es, m.node, None, samplesPerReport, samplesPerReport - 1);
      ([(m.node, es'[|es|].data)], es')
    else ([], es)
  }

  lemma {:induction false} NextRow(rows: seq<(nat, seq<Slot>)>, es: seq<Element>, members: seq<Member>,
      samplesPerReport: nat)
    requires samplesPerReport > 0 && members != []
    ensures var (row, es') := RowOf(es, members[0], samplesPerReport);
            rows + Rows(es, members, samplesPerReport) == (rows + row) + Rows(es', members[1..], samplesPerReport)
  {
    hide Find, AddSample;
    var (row, es') := RowOf(es, members[0], samplesPerReport);
    assert Rows(es, members, samplesPerReport) == row + Rows(es', members[1..], samplesPerReport);
  }

  lemma {:induction false} NoRows(es: seq<Element>, samplesPerReport: nat)
    requires samplesPerReport > 0
    ensures Rows(es, [], samplesPerReport) == []
  {
  }

  lemma {:induction false} AllKnownSensors(members: seq<Member>, i: nat)
    requires i <= |members|
    ensures i < |members| ==>
      KnownSensors(members[..i + 1]) == KnownSensors(members[..i]) + if members[i].known then 1 else 0
    decreases i
  {
    if i == 0 || i >= |members| {
    } else {
      AllKnownSensors(members[1..], i - 1);
      assert members[..i + 1][1..] == members[1..][..i] && members[..i][1..] == members[1..][..i - 1];
    }
  }

  predicate SizedTo(es: seq<Element>, samplesPerReport: nat) {
    forall e :: e in es ==> |e.data| == samplesPerReport
  }

  lemma {:induction false} AddKeepsSizes(es: seq<Element>, node: nat, sample: Option<nat>, samplesPerReport: nat,
      period: nat)
    requires SizedTo(es, samplesPerReport)
    ensures Fits(es, node, samplesPerReport, period) ==>
      SizedTo(AddSample(es, node, sample, samplesPerReport, period), samplesPerReport)
    ensures Find(es, node) < |es| ==> SizedTo(Overrun(es, node), samplesPerReport)
  {
    hide Find, Fits;
  }

  /** The context of the report builder's task. */
  class Builder {
    var sampleCounter: nat
    const samplesPerReport: nat
    const list: ElementList

    ghost predicate Valid()
      reads this, list, list.repr, list.nodes, set n | n in list.nodes :: n.data
    {
      && list.Valid() && this !in list.repr
      && (samplesPerReport > 0 ==> sampleCounter < samplesPerReport)
      && SizedTo(list.Contents(), samplesPerReport)
    }

    ghost function Context(): State
      reads this, list, list.nodes, set n | n in list.nodes :: n.data
    {
      State(list.Contents(), sampleCounter, samplesPerReport)
    }

    constructor (samplesPerReport: nat)
      ensures Valid() && fresh(list) && fresh(list.repr) && Context() == State([], 0, samplesPerReport)
    {
      sampleCounter := 0;
      this.samplesPerReport := samplesPerReport;
      list := new ElementList();
    }

    /** A sample message. */
    method HandleSample(node: nat, value: nat) returns (fits: bool)
      requires Valid()
      modifies this, list, list.repr
      ensures Valid() && fresh(list.repr - old(list.repr))
      ensures fits == CanStep(old(Context()), Sample(node, value))
      ensures fits ==> Context() == Next(old(Context()), Sample(node, value))
      ensures !fits ==>
                var st := old(Context());
                Find(st.elements, node) < |st.elements| && Context() == st.(elements := Overrun(st.elements, node))
    {
      hide Fits, AddSample, SizedTo;
      fits := true;
      if samplesPerReport > 0 {
        AddKeepsSizes(list.Contents(), node, Some(value), samplesPerReport, sampleCounter);
        fits := list.FindAndAddSample(node, Some(value), samplesPerReport, sampleCounter);
      }
    }

    /** An increment message: when the report period is over a report is made, perhaps, and the list is
        cleared in any case. */
    method HandleIncrement(topology: seq<Member>, transmit: bool) returns (report: Option<Report>)
      requires Valid()
      modifies this, list, list.repr
      ensures Valid() && fresh(list.repr - old(list.repr))
      ensures Context() == Next(old(Context()), Increment(topology, transmit))
      ensures report.Some? <==> && old(sampleCounter) + 1 >= samplesPerReport >= 1 && transmit && |topology| >= 2
                                && exists i :: 0 <= i < |topology| && topology[i].known
      ensures var st := old(Context());
              report == if st.period + 1 >= samplesPerReport && Transmits(st, topology, transmit)
                        then Some(ReportOf(st, topology)) else None
    {
      hide SizedTo, Rows, KnownSensors, ElementList.Linked, ElementList.Valid, ElementList.Contents;
      TransmitsIff(Context(), topology, transmit);
      report := None;
      sampleCounter := sampleCounter + 1;
      if sampleCounter >= samplesPerReport {
        if samplesPerReport > 0 && transmit {
          var numSensors := CountSensors(topology);
          if |topology| > 1 && numSensors > 0 {
            var rows := CollectRows(topology);
            report := Some(Report(numSensors % 0x100, rows));
          }
        }
        list.Clear();
        sampleCounter := 0;
        NoneSized(samplesPerReport);
      }
    }

    method CountSensors(topology: seq<Member>) returns (numSensors: nat)
      ensures numSensors == KnownSensors(topology)
    {
      numSensors := 0;
      for i := 0 to |topology|
        invariant numSensors == KnownSensors(topology[..i])
      {
        AllKnownSensors(topology, i);
        if topology[i].known { numSensors := numSensors + 1; }
      }
      assert topology[..|topology|] == topology;
    }

    // The loop over the nodes of the network, without the bridge.
    method CollectRows(topology: seq<Member>) returns (rows: seq<(nat, seq<Slot>)>)
      requires list.Valid() && this !in list.repr && SizedTo(list.Contents(), samplesPerReport)
      requires samplesPerReport > 0 && |topology| > 1 && sampleCounter == samplesPerReport
      modifies list, list.repr
      ensures list.Valid() && this !in list.repr && fresh(list.repr - old(list.repr))
      ensures rows == Rows(old(list.Contents()), topology[1..], samplesPerReport)
    {
      hide SizedTo, Rows, RowOf, ElementList.Linked, ElementList.Valid, ElementList.Contents;
      rows := [];
      ghost var all := Rows(list.Contents(), topology[1..], samplesPerReport);
      for i := 1 to |topology|
        invariant list.Valid() && this !in list.repr && fresh(list.repr - old(list.repr))
        invariant SizedTo(list.Contents(), samplesPerReport)
        invariant all == rows + Rows(list.Contents(), topology[i..], samplesPerReport)
      {
        NextRow(rows, list.Contents(), topology[i..], samplesPerReport);
        assert topology[i..][1..] == topology[i + 1..];
        var row := CollectRow(topology[i]);
        rows := rows + row;
      }
      NoRows(list.Contents(), samplesPerReport);
      assert topology[|topology|..] == [];
    }

    method CollectRow(member: Member) returns (row: seq<(nat, seq<Slot>)>)
      requires list.Valid() && this !in list.repr && SizedTo(list.Contents(), samplesPerReport)
      requires samplesPerReport > 0 && sampleCounter == samplesPerReport
      modifies list, list.repr
      ensures list.Valid() && this !in list.repr && fresh(list.repr - old(list.repr))
      ensures SizedTo(list.Contents(), samplesPerReport)
      ensures (row, list.Contents()) == RowOf(old(list.Contents()), member, samplesPerReport)
    {
      hide SizedTo, Find, AddSample, Fits, ElementList.Linked, ElementList.Valid;
      ghost var es, k := list.Contents(), Find(list.Contents(), member.node);
      var element := list.FindElement(member.node);
      if element == null {
        if !member.known { return []; }
        NewFits(es, member.node, samplesPerReport, sampleCounter - 1);
        AddKeepsSizes(es, member.node, None, samplesPerReport, sampleCounter - 1);
        var _ := list.FindAndAddSample(member.node, None, samplesPerReport, sampleCounter - 1);
        FindNew(es, member.node, samplesPerReport, sampleCounter - 1);
        element := list.FindElement(member.node);
      }
      SizeOf(list.Contents(), Find(list.Contents(), member.node), samplesPerReport);
      row := [(member.node, element.data[..samplesPerReport])];
      assert element.data[..samplesPerReport] == element.Value().data;
    }
  }

  lemma {:induction false} SizeOf(es: seq<Element>, k: nat, samplesPerReport: nat)
    requires SizedTo(es, samplesPerReport) && k < |es|
    ensures |es[k].data| == samplesPerReport
  {
  }

  lemma {:induction false} NoneSized(samplesPerReport: nat)
    ensures SizedTo([], samplesPerReport)
  {
  }

  lemma {:induction false} NewFits(es: seq<Element>, node: nat, samplesPerReport: nat, period: nat)
    requires period < samplesPerReport && Find(es, node) == |es|
    ensures Fits(es, node, samplesPerReport, period)
    ensures |AddSample(es, node, None, samplesPerReport, period)| == |es| + 1
  {
  }

  lemma {:induction false} FindNew(es: seq<Element>, node: nat, samplesPerReport: nat, period: nat)
    requires period < samplesPerReport && Find(es, node) == |es|
    ensures Find(AddSample(es, node, None, samplesPerReport, period), node) == |es|
  {
    FindAgain(es, node, None, samplesPerReport, period);
  }

  lemma {:induction false} FindIs(es: seq<Element>, node: nat, k: nat)
    requires k <= |es| && (k < |es| ==> es[k].node == node)
    requires forall j :: 0 <= j < k ==> es[j].node != node
    ensures Find(es, node) == k
  {
  }
}
