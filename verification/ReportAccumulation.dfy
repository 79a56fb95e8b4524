/**
 Accumulation of sensor samples between reports (src/apps/bridge/reportBuilder.cpp) as values: one
 element per node, one slot per sample period.
 */
module ReportAccumulation {

  datatype Option<T> = None | Some(value: T)

  /** A slot: as it was cleared, filled in for a missing sample, or a sample. */
  datatype Slot = Zeroed | NaN | Reading(value: nat)

  datatype Element = Element(node: nat, data: seq<Slot>, counter: nat)

  /** The elements in list order, the current period and the periods of a report. */
  datatype State = State(elements: seq<Element>, period: nat, samplesPerReport: nat)

  /** A node of the network, and whether its sensor type is a known one. */
  datatype Member = Member(node: nat, known: bool)

  datatype Event =
    | Sample(node: nat, value: nat)
    | Increment(topology: seq<Member>, transmit: bool)

  // ---- the steps ----

  function SlotOf(sample: Option<nat>): Slot {
    if sample == None then NaN else Reading(sample.value)
  }

  function Max(a: nat, b: nat): nat {
    if a < b then b else a
  }

  // The slot a sample of a period goes to: the first free one, but none before the period's own.
  function Place(e: Element, period: nat): nat {
    Max(e.counter, period)
  }

  // addSampleToElement: slots skipped since the last sample are filled in.
  function Filed(e: Element, sample: Option<nat>, period: nat): (r: Element)
    requires Place(e, period) < |e.data|
    ensures r.node == e.node && |r.data| == |e.data| && r.counter == Place(e, period) + 1
    ensures r.data[Place(e, period)] == SlotOf(sample)
    ensures forall j :: 0 <= j < |e.data| && (j < e.counter || j > Place(e, period)) ==> r.data[j] == e.data[j]
    ensures forall j :: e.counter <= j < Place(e, period) ==> r.data[j] == NaN
  {
    var k := Place(e, period);
    Element(e.node,
            seq(|e.data|, j requires 0 <= j < |e.data| =>
                if j == k then SlotOf(sample) else if e.counter <= j < k then NaN else e.data[j]),
            k + 1)
  }

  function New(node: nat, samplesPerReport: nat): Element {
    Element(node, seq(samplesPerReport, _ => Zeroed), 0)
  }

  // The first element of a node, or the length of the list.
  function Find(es: seq<Element>, node: nat): (k: nat)
    ensures k <= |es|
    ensures k < |es| ==> es[k].node == node
    ensures forall j :: 0 <= j < k ==> es[j].node != node
  {
    if es == [] || es[0].node == node then 0 else 1 + Find(es[1..], node)
  }

  // There is room for the sample.
  predicate Fits(es: seq<Element>, node: nat, samplesPerReport: nat, period: nat) {
    var k := Find(es, node);
    if k < |es| then Place(es[k], period) < |es[k].data| else period < samplesPerReport
  }

  function AddSample(es: seq<Element>, node: nat, sample: Option<nat>, samplesPerReport: nat, period: nat): seq<Element>
    requires Fits(es, node, samplesPerReport, period)
  {
    var k := Find(es, node);
    if k < |es| then es[k := Filed(es[k], sample, period)]
    else es + [Filed(New(node, samplesPerReport), sample, period)]
  }

  // Without room the source writes the sample behind the last slot all the same, and counts it.
  function Overrun(es: seq<Element>, node: nat): seq<Element>
    requires Find(es, node) < |es|
  {
    var k := Find(es, node);
    es[k := es[k].(counter := es[k].counter + 1)]
  }

  // What a report holds: a row of slots for each node after the first that has an element or a known
  // sensor; a node with no element gets one of missing samples.
  function Rows(es: seq<Element>, members: seq<Member>, samplesPerReport: nat): seq<(nat, seq<Slot>)>
    requires samplesPerReport > 0
    decreases |members|
  {
    if members == [] then []
    else
      var m := members[0];
      var k := Find(es, m.node);
      if k < |es| then [(m.node, es[k].data)] + Rows(es, members[1..], samplesPerReport)
      else if m.known then
        var es' := AddSample(es, m.node, None, samplesPerReport, samplesPerReport - 1);
        [(m.node, es'[|es|].data)] + Rows(es', members[1..], samplesPerReport)
      else Rows(es, members[1..], samplesPerReport)
  }

  function KnownSensors(members: seq<Member>): nat {
    if members == [] then 0 else (if members[0].known then 1 else 0) + KnownSensors(members[1..])
  }

  predicate Transmits(st: State, topology: seq<Member>, transmit: bool) {
    st.samplesPerReport > 0 && transmit && |topology| > 1 && KnownSensors(topology) > 0
  }

  // Whether an event can be handled; a sample needs a slot.
  predicate CanStep(st: State, ev: Event) {
    ev.Sample? && st.samplesPerReport > 0 ==> Fits(st.elements, ev.node, st.samplesPerReport, st.period)
  }

  function Next(st: State, ev: Event): State
    requires CanStep(st, ev)
  {
    match ev
    case Sample(node, value) =>
      if st.samplesPerReport == 0 then st
      else st.(elements := AddSample(st.elements, node, Some(value), st.samplesPerReport, st.period))
    case Increment(_, _) =>
      if st.period + 1 >= st.samplesPerReport then State([], 0, st.samplesPerReport)
      else st.(period := st.period + 1)
  }

  // ---- when a report is due, and when it is made ----

  function Increments(evs: seq<Event>): nat {
    if evs == [] then 0 else Increments(evs[1..]) + if evs[0].Increment? then 1 else 0
  }

  /** The period counts the increments, and starts anew with every report: whatever samples come, a report
      is due at every increment of so many. */
  lemma {:induction false} PeriodCounts(st: State, evs: seq<Event>)
    requires st.period < st.samplesPerReport && Run(st, evs).Some?
    ensures var after := Run(st, evs).value;
            && after.samplesPerReport == st.samplesPerReport
            && after.period == (st.period + Increments(evs)) % st.samplesPerReport
    decreases |evs|
  {
    hide CanStep, AddSample;
    var n := st.samplesPerReport;
    if evs == [] {
      InOneRound(st.period, n);
    } else {
      var next := Next(st, evs[0]);
      PeriodCounts(next, evs[1..]);
      if evs[0].Increment? && st.period + 1 >= n { WholeRound(Increments(evs[1..]), n); }
    }
  }

  lemma {:induction false} InOneRound(a: nat, n: nat)
    requires a < n
    ensures a % n == a
  {
  }

  lemma {:induction false} WholeRound(a: nat, n: nat)
    requires n > 0
    ensures (n + a) % n == a % n
  {
    var q, r := a / n, a % n;
    assert a == q * n + r;
    assert n + a == (q + 1) * n + r;
    Remainder(n + a, n, q + 1, r);
  }

  lemma {:induction false} Remainder(a: nat, n: nat, q: nat, r: nat)
    requires n > 0 && a == q * n + r && r < n
    ensures a % n == r
  {
    var k := a / n;
    assert a == k * n + a % n;
    if k != q {
      MoreIsMore(if k < q then k + 1 else q + 1, if k < q then q else k, n);
    }
  }

  lemma {:induction false} MoreIsMore(a: nat, b: nat, n: nat)
    requires a <= b
    ensures a * n <= b * n
  {
    assert (b - a) * n >= 0;
  }

  /** An increment that ends a report's period makes the report exactly if reports are wanted, more than the
      bridge is there, and some node has a known sensor. */
  lemma {:induction false} TransmitsIff(st: State, topology: seq<Member>, transmit: bool)
    ensures Transmits(st, topology, transmit)
       <==> && st.samplesPerReport >= 1 && transmit && |topology| >= 2
            && exists i :: 0 <= i < |topology| && topology[i].known
  {
    KnownSensorsAre(topology, 0);
    assert topology[0..] == topology;
    var known := set i | 0 <= i < |topology| && topology[i].known;
    if i :| 0 <= i < |topology| && topology[i].known { assert i in known; }
    if known != {} { var i :| i in known; }
  }

  // As many sensors are known as there are nodes that have one.
  lemma {:induction false} KnownSensorsAre(members: seq<Member>, k: nat)
    requires k <= |members|
    ensures KnownSensors(members[k..]) == |set i | k <= i < |members| && members[i].known|
    decreases |members| - k
  {
    var known := set i | k <= i < |members| && members[i].known;
    if k == |members| {
      assert known == {};
    } else {
      KnownSensorsAre(members, k + 1);
      assert members[k..][0] == members[k] && members[k..][1..] == members[k + 1..];
      var later := set i | k + 1 <= i < |members| && members[i].known;
      assert known == later + if members[k].known then {k} else {};
    }
  }

  // ---- the samples of a report period ----

  /** The samples since the last report by (node, period), and the nodes in the order of their first. */
  datatype Log = Log(samples: map<(nat, nat), nat>, order: seq<nat>)

  const NO_SAMPLES := Log(map[], [])

  function LogNext(log: Log, samplesPerReport: nat, period: nat, ev: Event): Log {
    match ev
    case Sample(node, value) =>
      if samplesPerReport == 0 then log
      else Log(log.samples[(node, period) := value], if node in log.order then log.order else log.order + [node])
    case Increment(_, _) =>
      if period + 1 >= samplesPerReport then NO_SAMPLES else log
  }

  function PeriodNext(samplesPerReport: nat, period: nat, ev: Event): nat {
    if ev.Sample? then period else if period + 1 >= samplesPerReport then 0 else period + 1
  }

  function LogRun(log: Log, samplesPerReport: nat, period: nat, evs: seq<Event>): Log
    decreases |evs|
  {
    if evs == [] then log
    else
      LogRun(LogNext(log, samplesPerReport, period, evs[0]), samplesPerReport,
        PeriodNext(samplesPerReport, period, evs[0]), evs[1..])
  }

  // At most one sample per node between increments.
  predicate Orderly(log: Log, samplesPerReport: nat, period: nat, evs: seq<Event>)
    decreases |evs|
  {
    evs == [] ||
    ((evs[0].Sample? ==> (evs[0].node, period) !in log.samples)
     && Orderly(LogNext(log, samplesPerReport, period, evs[0]), samplesPerReport,
          PeriodNext(samplesPerReport, period, evs[0]), evs[1..]))
  }

  // A run of events, if there is room for every sample in it.
  function Run(st: State, evs: seq<Event>): Option<State>
    decreases |evs|
  {
    if evs == [] then Some(st)
    else if CanStep(st, evs[0]) then Run(Next(st, evs[0]), evs[1..])
    else None
  }

  ghost predicate ElementMatches(e: Element, log: Log, period: nat, samplesPerReport: nat) {
    && |e.data| == samplesPerReport
    && 0 < e.counter <= period + 1
    && (e.node, e.counter - 1) in log.samples
    && (forall k {:trigger (e.node, k) in log.samples} :: (e.node, k) in log.samples ==> k < e.counter)
    && (forall j {:trigger e.data[j]} :: 0 <= j < samplesPerReport ==>
          e.data[j] == if (e.node, j) in log.samples then Reading(log.samples[(e.node, j)])
                       else if j < e.counter then NaN else Zeroed)
  }

  // The elements are the map of (node, period) to samples, in the order the nodes were first heard.
  ghost predicate Refines(st: State, log: Log) {
    && (st.samplesPerReport > 0 ==> st.period < st.samplesPerReport)
    && (st.samplesPerReport == 0 ==> st.elements == [])
    && |st.elements| == |log.order|
    && (forall i :: 0 <= i < |log.order| ==> st.elements[i].node == log.order[i])
    && (forall i, j :: 0 <= i < j < |log.order| ==> log.order[i] != log.order[j])
    && (forall n, k :: (n, k) in log.samples ==> n in log.order)
    && (forall e :: e in st.elements ==> ElementMatches(e, log, st.period, st.samplesPerReport))
  }

  lemma {:induction false} FindInOrder(st: State, log: Log, node: nat)
    requires Refines(st, log)
    ensures Find(st.elements, node) < |st.elements| <==> node in log.order
  {
    hide ElementMatches;
  }

  lemma {:induction false} SampleFits(st: State, log: Log, node: nat)
    requires Refines(st, log) && st.samplesPerReport > 0 && (node, st.period) !in log.samples
    ensures Fits(st.elements, node, st.samplesPerReport, st.period)
    ensures var k := Find(st.elements, node);
            k < |st.elements| ==> Place(st.elements[k], st.period) == st.period
  {
    var k := Find(st.elements, node);
    if k < |st.elements| {
      assert st.elements[k] in st.elements;
    }
  }

  lemma {:induction false} FiledMatches(e: Element, log: Log, value: nat, period: nat, samplesPerReport: nat)
    requires period < samplesPerReport == |e.data| && Place(e, period) == period
    requires ElementMatches(e, log, period, samplesPerReport)
      || (e == New(e.node, samplesPerReport) && forall k :: (e.node, k) !in log.samples)
    ensures ElementMatches(Filed(e, Some(value), period), log.(samples := log.samples[(e.node, period) := value]),
      period, samplesPerReport)
  {
  }

  lemma {:induction false} OthersMatch(e: Element, log: Log, node: nat, value: nat, period: nat, samplesPerReport: nat)
    requires ElementMatches(e, log, period, samplesPerReport) && e.node != node
    ensures ElementMatches(e, log.(samples := log.samples[(node, period) := value]), period, samplesPerReport)
  {
  }

  lemma {:induction false} OrderIrrelevant(e: Element, log: Log, order: seq<nat>, period: nat, samplesPerReport: nat)
    requires ElementMatches(e, log, period, samplesPerReport)
    ensures ElementMatches(e, log.(order := order), period, samplesPerReport)
  {
  }

  lemma {:induction false} SampleRefines(st: State, log: Log, node: nat, value: nat)
    requires Refines(st, log) && st.samplesPerReport > 0 && (node, st.period) !in log.samples
    requires CanStep(st, Sample(node, value))
    ensures Refines(Next(st, Sample(node, value)), LogNext(log, st.samplesPerReport, st.period, Sample(node, value)))
  {
    var k, spr := Find(st.elements, node), st.samplesPerReport;
    SampleFits(st, log, node);
    FindInOrder(st, log, node);
    var e := if k < |st.elements| then st.elements[k] else New(node, spr);
    var log' := LogNext(log, st.samplesPerReport, st.period, Sample(node, value));
    var st' := Next(st, Sample(node, value));
    if k < |st.elements| { assert e in st.elements; }
    FiledMatches(e, log, value, st.period, spr);
    forall x | x in st'.elements ensures ElementMatches(x, log', st.period, spr) {
      var i :| 0 <= i < |st'.elements| && st'.elements[i] == x;
      if i == k {
        OrderIrrelevant(x, log.(samples := log'.samples), log'.order, st.period, spr);
      } else {
        assert x == st.elements[i] && x in st.elements;
        assert x.node != node;
        OthersMatch(x, log, node, value, st.period, spr);
        OrderIrrelevant(x, log.(samples := log'.samples), log'.order, st.period, spr);
      }
    }
    hide ElementMatches, Filed;
  }

  lemma {:induction false} IncrementRefines(st: State, log: Log, topology: seq<Member>, transmit: bool)
    requires Refines(st, log)
    ensures Refines(Next(st, Increment(topology, transmit)),
      LogNext(log, st.samplesPerReport, st.period, Increment(topology, transmit)))
  {
    forall e | e in st.elements ensures ElementMatches(e, log, st.period + 1, st.samplesPerReport) {
      assert ElementMatches(e, log, st.period, st.samplesPerReport);
    }
    hide ElementMatches;
  }

  /** Over every run with at most one sample per node between increments, across reports: there is room
      for every sample, and the elements are the map of (node, period) to samples since the last report. */
  lemma {:induction false} RunRefines(st: State, log: Log, evs: seq<Event>)
    requires Refines(st, log) && Orderly(log, st.samplesPerReport, st.period, evs)
    ensures Run(st, evs).Some?
    ensures Refines(Run(st, evs).value, LogRun(log, st.samplesPerReport, st.period, evs))
    decreases |evs|
  {
    hide Refines, Fits, AddSample;
    if evs == [] {
    } else {
      match evs[0] {
        case Sample(node, value) =>
          if st.samplesPerReport > 0 {
            SampleFits(st, log, node);
            SampleRefines(st, log, node, value);
          }
        case Increment(topology, transmit) => IncrementRefines(st, log, topology, transmit);
      }
      RunRefines(Next(st, evs[0]), LogNext(log, st.samplesPerReport, st.period, evs[0]), evs[1..]);
    }
  }

  lemma {:induction false} StartRefines(samplesPerReport: nat)
    ensures Refines(State([], 0, samplesPerReport), NO_SAMPLES)
  {
  }

  // ---- what a report says ----

  predicate Heard(log: Log, node: nat) {
    node in log.order
  }

  // What a report says of a node's period: its sample; a missing one if a later one came in or none did
  // at all; and otherwise the zeros of a slot that was never written.
  ghost function Reported(log: Log, node: nat, j: nat): Slot {
    if (node, j) in log.samples then Reading(log.samples[(node, j)])
    else if !Heard(log, node) || (exists k :: k > j && (node, k) in log.samples) then NaN
    else Zeroed
  }

  ghost predicate RowMatches(data: seq<Slot>, log: Log, node: nat, samplesPerReport: nat) {
    |data| == samplesPerReport && forall j :: 0 <= j < samplesPerReport ==> data[j] == Reported(log, node, j)
  }

  lemma {:induction false} ElementRow(e: Element, log: Log, period: nat, samplesPerReport: nat)
    requires ElementMatches(e, log, period, samplesPerReport) && Heard(log, e.node)
    ensures RowMatches(e.data, log, e.node, samplesPerReport)
  {
    forall j | 0 <= j < samplesPerReport ensures e.data[j] == Reported(log, e.node, j) {
      if (e.node, j) !in log.samples && j < e.counter {
        assert e.counter - 1 > j && (e.node, e.counter - 1) in log.samples;
      }
    }
  }

  // The elements while a report is made: every node heard has one, and each is what should be said.
  ghost predicate Reportable(es: seq<Element>, log: Log, samplesPerReport: nat) {
    && (forall e :: e in es ==> RowMatches(e.data, log, e.node, samplesPerReport))
    && (forall n :: Heard(log, n) ==> Find(es, n) < |es|)
    && (forall n, k :: (n, k) in log.samples ==> Heard(log, n))
  }

  predicate DistinctMembers(members: seq<Member>) {
    forall i, j :: 0 <= i < j < |members| ==> members[i].node != members[j].node
  }

  // The nodes a report should have a row for: those heard, and those with a known sensor type.
  function RowNodes(members: seq<Member>, log: Log): seq<nat> {
    if members == [] then []
    else
      (if members[0].known || Heard(log, members[0].node) then [members[0].node] else []) + RowNodes(members[1..], log)
  }

  lemma {:induction false} NewRow(log: Log, node: nat, samplesPerReport: nat)
    requires samplesPerReport > 0 && !Heard(log, node) && forall n, k :: (n, k) in log.samples ==> Heard(log, n)
    ensures RowMatches(Filed(New(node, samplesPerReport), None, samplesPerReport - 1).data, log, node, samplesPerReport)
  {
  }

  lemma {:induction false} FindInSum(es: seq<Element>, e: Element, node: nat)
    ensures Find(es + [e], node) == if Find(es, node) < |es| then Find(es, node)
                                    else if e.node == node then |es| else |es| + 1
  {
    if es == [] {
      assert ([e])[1..] == [];
    } else {
      assert (es + [e])[1..] == es[1..] + [e];
      FindInSum(es[1..], e, node);
    }
  }

  lemma {:induction false} OneMoreReportable(es: seq<Element>, log: Log, node: nat, samplesPerReport: nat)
    requires samplesPerReport > 0 && Reportable(es, log, samplesPerReport) && Find(es, node) == |es|
    ensures Reportable(AddSample(es, node, None, samplesPerReport, samplesPerReport - 1), log, samplesPerReport)
  {
    var e := Filed(New(node, samplesPerReport), None, samplesPerReport - 1);
    NewRow(log, node, samplesPerReport);
    hide RowMatches, Find, Filed;
    forall n | Heard(log, n) ensures Find(es + [e], n) < |es + [e]| { FindInSum(es, e, n); }
  }

  // Nodes added while the report is made are not among those that follow.
  predicate NotAhead(es: seq<Element>, members: seq<Member>, log: Log) {
    forall m :: m in members && Find(es, m.node) < |es| ==> Heard(log, m.node)
  }

  lemma {:induction false} RowsFollow(es: seq<Element>, members: seq<Member>, samplesPerReport: nat)
    requires samplesPerReport > 0
    ensures members == [] ==> Rows(es, members, samplesPerReport) == []
    ensures members != [] ==>
      var m, k := members[0], Find(es, members[0].node);
      Rows(es, members, samplesPerReport) ==
        if k < |es| then [(m.node, es[k].data)] + Rows(es, members[1..], samplesPerReport)
        else if m.known then
          var es' := AddSample(es, m.node, None, samplesPerReport, samplesPerReport - 1);
          [(m.node, es'[|es|].data)] + Rows(es', members[1..], samplesPerReport)
        else Rows(es, members[1..], samplesPerReport)
  {
  }

  // The rows are those nodes', in that order, and each says what is reported of its node.
  ghost predicate RowsMatch(rows: seq<(nat, seq<Slot>)>, nodes: seq<nat>, log: Log, samplesPerReport: nat) {
    && |rows| == |nodes|
    && forall i :: 0 <= i < |rows| ==> rows[i].0 == nodes[i] && RowMatches(rows[i].1, log, nodes[i], samplesPerReport)
  }

  lemma {:induction false} RowsMatchNext(node: nat, data: seq<Slot>, rows: seq<(nat, seq<Slot>)>, nodes: seq<nat>,
      log: Log, samplesPerReport: nat)
    requires RowMatches(data, log, node, samplesPerReport) && RowsMatch(rows, nodes, log, samplesPerReport)
    ensures RowsMatch([(node, data)] + rows, [node] + nodes, log, samplesPerReport)
  {
  }

  lemma {:induction false} NoRowNodes(log: Log, samplesPerReport: nat)
    ensures RowNodes([], log) == [] && RowsMatch([], [], log, samplesPerReport)
  {
  }

  lemma {:induction false} NextRowNode(members: seq<Member>, log: Log)
    requires members != []
    ensures RowNodes(members, log)
         == (if members[0].known || Heard(log, members[0].node) then [members[0].node] else [])
           + RowNodes(members[1..], log)
  {
  }

  lemma {:induction false} RowsAreReported(es: seq<Element>, members: seq<Member>, log: Log, samplesPerReport: nat)
    requires samplesPerReport > 0 && Reportable(es, log, samplesPerReport)
    requires DistinctMembers(members) && NotAhead(es, members, log)
    ensures RowsMatch(Rows(es, members, samplesPerReport), RowNodes(members, log), log, samplesPerReport)
    decreases |members|
  {
    hide RowMatches, RowsMatch, Filed, RowNodes, Rows;
    NoRowNodes(log, samplesPerReport);
    RowsFollow(es, members, samplesPerReport);
    if members == [] {
    } else {
      NextRowNode(members, log);
      var m, rest := members[0], members[1..];
      var k := Find(es, m.node);
      assert m in members;
      assert forall x :: x in rest ==> x in members;
      if k < |es| {
        assert es[k] in es;
        RowsAreReported(es, rest, log, samplesPerReport);
        RowsMatchNext(m.node, es[k].data, Rows(es, rest, samplesPerReport), RowNodes(rest, log), log, samplesPerReport);
      } else if m.known {
        var es' := AddSample(es, m.node, None, samplesPerReport, samplesPerReport - 1);
        OneMoreReportable(es, log, m.node, samplesPerReport);
        NewRow(log, m.node, samplesPerReport);
        forall x | x in rest && Find(es', x.node) < |es'| ensures Heard(log, x.node) {
          FindInSum(es, es'[|es|], x.node);
          var i :| 0 <= i < |rest| && rest[i] == x;
          assert members[i + 1] == x && x.node != m.node;
        }
        RowsAreReported(es', rest, log, samplesPerReport);
        RowsMatchNext(m.node, es'[|es|].data, Rows(es', rest, samplesPerReport), RowNodes(rest, log), log,
          samplesPerReport);
      } else {
        assert !Heard(log, m.node) && RowNodes(members, log) == RowNodes(rest, log);
        RowsAreReported(es, rest, log, samplesPerReport);
      }
    }
  }

  /** A report has one row for each node after the bridge that was heard or has a known sensor, in the
      order of the topology, and each row says of every period what Reported says. */
  lemma {:induction false} ReportIsReported(st: State, log: Log, topology: seq<Member>)
    requires Refines(st, log) && st.samplesPerReport > 0 && DistinctMembers(topology) && |topology| > 0
    ensures RowsMatch(Rows(st.elements, topology[1..], st.samplesPerReport), RowNodes(topology[1..], log), log,
      st.samplesPerReport)
  {
    hide RowMatches, RowsMatch, ElementMatches, Rows, RowNodes;
    forall e | e in st.elements ensures RowMatches(e.data, log, e.node, st.samplesPerReport) {
      ElementRow(e, log, st.period, st.samplesPerReport);
    }
    forall n ensures Heard(log, n) <==> Find(st.elements, n) < |st.elements| { FindInOrder(st, log, n); }
    RowsAreReported(st.elements, topology[1..], log, st.samplesPerReport);
  }

  // The bridge and fifteen more (src/lib/common/topology_sampler.h).
  const MAX_NODES := 16

  /** What is sent: the number of sensors announced, in 8 bits, and the rows. */
  datatype Report = Report(announced: nat, rows: seq<(nat, seq<Slot>)>)

  function ReportOf(st: State, topology: seq<Member>): Report
    requires st.samplesPerReport > 0 && |topology| > 0
  {
    Report(KnownSensors(topology) % 0x100, Rows(st.elements, topology[1..], st.samplesPerReport))
  }

  // The nodes that were heard but have no known sensor.
  function OnlyHeard(members: seq<Member>, log: Log): nat {
    if members == [] then 0
    else (if !members[0].known && Heard(log, members[0].node) then 1 else 0) + OnlyHeard(members[1..], log)
  }

  /** A report announces as many sensors as it has rows exactly if as many nodes were heard without a known
      sensor as the bridge, which has no row, is counted as sensors: none, or one. */
  lemma {:induction false} AnnouncedIff(st: State, log: Log, topology: seq<Member>)
    requires Refines(st, log) && st.samplesPerReport > 0 && DistinctMembers(topology) && |topology| > 0
    requires |topology| <= MAX_NODES
    ensures var report := ReportOf(st, topology);
            |report.rows| == report.announced <==> OnlyHeard(topology[1..], log) == if topology[0].known then 1 else 0
  {
    ReportIsReported(st, log, topology);
    RowsAreKnownOrHeard(topology[1..], log);
    KnownAtMost(topology);
  }

  lemma {:induction false} KnownAtMost(members: seq<Member>)
    ensures KnownSensors(members) <= |members|
  {
    if members == [] {
    } else {
      KnownAtMost(members[1..]);
    }
  }

  lemma {:induction false} RowsAreKnownOrHeard(members: seq<Member>, log: Log)
    ensures |RowNodes(members, log)| == KnownSensors(members) + OnlyHeard(members, log)
  {
    if members == [] {
    } else {
      RowsAreKnownOrHeard(members[1..], log);
    }
  }

  // A node that was heard with its sensor type unknown makes one row too many.
  lemma {:induction false} UnknownSensorIsNotAnnounced()
    ensures var st := State([], 0, 1);
            var topology := [Member(1, false), Member(2, true), Member(3, false)];
            var after := Next(st, Sample(3, 7));
            CanStep(st, Sample(3, 7)) && ReportOf(after, topology).announced == 1
              && |ReportOf(after, topology).rows| == 2
  {
    var st := State([], 0, 1);
    var topology := [Member(1, false), Member(2, true), Member(3, false)];
    var log := LogNext(NO_SAMPLES, 1, 0, Sample(3, 7));
    StartRefines(1);
    SampleRefines(st, NO_SAMPLES, 3, 7);
    assert topology[1..] == [Member(2, true), Member(3, false)] && topology[1..][1..] == [Member(3, false)];
    assert topology[1..][1..][1..] == [];
    RowsAreKnownOrHeard(topology[1..], log);
    ReportIsReported(Next(st, Sample(3, 7)), log, topology);
  }

  /** A row is all samples and missing samples exactly if the node was not heard at all or was heard in
      the last period; otherwise its last slots are reported as the zeros they were cleared to. */
  lemma {:induction false} RowIsFilledIff(st: State, log: Log, node: nat, data: seq<Slot>)
    requires Refines(st, log) && st.samplesPerReport > 0
    requires RowMatches(data, log, node, st.samplesPerReport)
    ensures Zeroed !in data <==> !Heard(log, node) || (node, st.samplesPerReport - 1) in log.samples
  {
    assert data[st.samplesPerReport - 1] == Reported(log, node, st.samplesPerReport - 1);
    if exists k :: k > st.samplesPerReport - 1 && (node, k) in log.samples {
      var k :| k > st.samplesPerReport - 1 && (node, k) in log.samples;
      SampleInReport(st, log, node, k);
    }
  }

  // A node heard in the first of two periods and not in the second has a zero reported for the second.
  lemma {:induction false} ZeroIsReported(node: nat, value: nat)
    ensures var st := State([], 0, 2);
            CanStep(st, Sample(node, value))
    ensures var st := Next(State([], 0, 2), Sample(node, value));
            var after := st.(period := 1);
            Rows(after.elements, [Member(node, true)], 2) == [(node, [Reading(value), Zeroed])]
  {
    var e := Filed(New(node, 2), Some(value), 0);
    assert e.data == [Reading(value), Zeroed];
    var es := AddSample([], node, Some(value), 2, 0);
    assert es == [e];
    assert [Member(node, true)][1..] == [];
  }

  lemma {:induction false} SampleInReport(st: State, log: Log, node: nat, k: nat)
    requires Refines(st, log) && (node, k) in log.samples
    ensures k <= st.period && (st.samplesPerReport > 0 ==> k < st.samplesPerReport)
  {
    var i :| 0 <= i < |log.order| && log.order[i] == node;
    assert st.elements[i] in st.elements;
  }

  // ---- more than one sample in a period ----

  /** A second sample in a period takes the next period's slot and pushes that period's own sample one
      further; in the last period there is no room for it. */
  lemma {:induction false} SecondSampleTakesNextSlot(st: State, log: Log, node: nat, a: nat, b: nat)
    requires Refines(st, log) && st.samplesPerReport > 0 && (node, st.period) !in log.samples
    requires CanStep(st, Sample(node, a))
    ensures var st1 := Next(st, Sample(node, a));
            && (CanStep(st1, Sample(node, b)) <==> st.period + 1 < st.samplesPerReport)
            && (CanStep(st1, Sample(node, b)) ==>
                  var es := Next(st1, Sample(node, b)).elements;
                  var k := Find(es, node);
                  && k < |es| && es[k].data[st.period + 1] == Reading(b)
                  && Place(es[k], st.period + 1) == st.period + 2)
  {
    hide ElementMatches, Refines;
    SampleFits(st, log, node);
    SizeKept(st, log, node);
    var k := Find(st.elements, node);
    var st1 := Next(st, Sample(node, a));
    FindAgain(st.elements, node, Some(a), st.samplesPerReport, st.period);
    var e := st1.elements[k];
    assert e.counter == st.period + 1 && |e.data| == st.samplesPerReport;
    if st.period + 1 < st.samplesPerReport {
      FindAgain(st1.elements, node, Some(b), st.samplesPerReport, st.period);
    }
  }

  lemma {:induction false} SizeKept(st: State, log: Log, node: nat)
    requires Refines(st, log)
    ensures var k := Find(st.elements, node);
            k < |st.elements| ==> |st.elements[k].data| == st.samplesPerReport
  {
    var k := Find(st.elements, node);
    if k < |st.elements| { assert st.elements[k] in st.elements; }
  }

  lemma {:induction false} FindAgain(es: seq<Element>, node: nat, sample: Option<nat>, samplesPerReport: nat,
      period: nat)
    requires Fits(es, node, samplesPerReport, period)
    ensures Find(AddSample(es, node, sample, samplesPerReport, period), node) == Find(es, node)
  {
    var es' := AddSample(es, node, sample, samplesPerReport, period);
    var k, k' := Find(es, node), Find(es', node);
    assert es'[k].node == node;
    assert forall j :: 0 <= j < k ==> es'[j] == es[j];
    assert forall j :: 0 <= j < k ==> es'[j].node != node;
  }

  // ---- room for every sample ----

  // The samples since the last report, as (node, period) in the order they came.
  function ArrivalsNext(arrivals: seq<(nat, nat)>, samplesPerReport: nat, period: nat, ev: Event): seq<(nat, nat)> {
    match ev
    case Sample(node, _) => if samplesPerReport == 0 then arrivals else arrivals + [(node, period)]
    case Increment(_, _) => if period + 1 >= samplesPerReport then [] else arrivals
  }

  // How many samples a node sent in period p and later.
  function Since(arrivals: seq<(nat, nat)>, node: nat, p: nat): nat {
    if arrivals == [] then 0
    else Since(arrivals[..|arrivals| - 1], node, p)
         + if arrivals[|arrivals| - 1].0 == node && arrivals[|arrivals| - 1].1 >= p then 1 else 0
  }

  // No node has sent more samples in some period and later than there are periods left from there on.
  ghost predicate Roomy(arrivals: seq<(nat, nat)>, samplesPerReport: nat) {
    forall node, p: nat {:trigger Since(arrivals, node, p)} ::
      p < samplesPerReport ==> Since(arrivals, node, p) <= samplesPerReport - p
  }

  // Throughout a run, in every report.
  ghost predicate AllRoomy(arrivals: seq<(nat, nat)>, samplesPerReport: nat, period: nat, evs: seq<Event>)
    decreases |evs|
  {
    && Roomy(arrivals, samplesPerReport)
    && (evs != [] ==>
          AllRoomy(ArrivalsNext(arrivals, samplesPerReport, period, evs[0]), samplesPerReport,
                   PeriodNext(samplesPerReport, period, evs[0]), evs[1..]))
  }

  // The counter of a node's element is the largest p + Since(p) over the periods since which it sent.
  ghost predicate Counts(counter: nat, arrivals: seq<(nat, nat)>, node: nat) {
    && (forall p: nat {:trigger Since(arrivals, node, p)} ::
          Since(arrivals, node, p) > 0 ==> p + Since(arrivals, node, p) <= counter)
    && (exists p: nat {:trigger Since(arrivals, node, p)} ::
          Since(arrivals, node, p) > 0 && p + Since(arrivals, node, p) == counter)
  }

  ghost predicate CountsNode(es: seq<Element>, arrivals: seq<(nat, nat)>, samplesPerReport: nat, node: nat) {
    var k := Find(es, node);
    if k < |es| then |es[k].data| == samplesPerReport && Counts(es[k].counter, arrivals, node)
    else Since(arrivals, node, 0) == 0
  }

  ghost predicate Tracks(st: State, arrivals: seq<(nat, nat)>) {
    && (st.samplesPerReport > 0 ==> st.period < st.samplesPerReport)
    && (st.samplesPerReport == 0 ==> arrivals == [])
    && (forall i :: 0 <= i < |arrivals| ==> arrivals[i].1 <= st.period)
    && (forall node :: CountsNode(st.elements, arrivals, st.samplesPerReport, node))
    && Roomy(arrivals, st.samplesPerReport)
  }

  lemma {:induction false} SinceOneMore(arrivals: seq<(nat, nat)>, a: (nat, nat), node: nat, p: nat)
    ensures Since(arrivals + [a], node, p) == Since(arrivals, node, p) + if a.0 == node && a.1 >= p then 1 else 0
  {
    assert (arrivals + [a])[..|arrivals|] == arrivals;
  }

  lemma {:induction false} NoneSince(arrivals: seq<(nat, nat)>, node: nat, p: nat, periods: nat)
    requires forall i :: 0 <= i < |arrivals| ==> arrivals[i].1 < periods
    ensures p >= periods ==> Since(arrivals, node, p) == 0
    ensures Since(arrivals, node, 0) == 0 ==> Since(arrivals, node, p) == 0
  {
    if arrivals == [] {
    } else {
      NoneSince(arrivals[..|arrivals| - 1], node, p, periods);
    }
  }

  // A sample counts the node's element on to the slot after its own.
  lemma {:induction false} CountsOneMore(counter: nat, arrivals: seq<(nat, nat)>, node: nat, period: nat)
    requires forall i :: 0 <= i < |arrivals| ==> arrivals[i].1 <= period
    requires Counts(counter, arrivals, node) || (counter == 0 && Since(arrivals, node, 0) == 0)
    ensures Counts(Max(counter, period) + 1, arrivals + [(node, period)], node)
  {
    var after, counter' := arrivals + [(node, period)], Max(counter, period) + 1;
    forall p: nat
      ensures Since(after, node, p) == Since(arrivals, node, p) + if p <= period then 1 else 0
      ensures Since(after, node, p) > 0 ==> p + Since(after, node, p) <= counter'
      ensures Since(arrivals, node, p) > 0 ==> p <= period
    {
      SinceOneMore(arrivals, (node, period), node, p);
      NoneSince(arrivals, node, p, period + 1);
    }
    if Counts(counter, arrivals, node) && counter >= period {
      var p: nat :| Since(arrivals, node, p) > 0 && p + Since(arrivals, node, p) == counter;
      assert Since(after, node, p) > 0 && p + Since(after, node, p) == counter';
    } else {
      assert Since(after, node, period) > 0 && period + Since(after, node, period) == counter';
    }
  }

  // A counter is within the report exactly when its node leaves room.
  lemma {:induction false} CounterIsRoom(counter: nat, arrivals: seq<(nat, nat)>, samplesPerReport: nat, node: nat)
    requires Counts(counter, arrivals, node)
    requires forall i :: 0 <= i < |arrivals| ==> arrivals[i].1 < samplesPerReport
    ensures counter <= samplesPerReport
       <==> forall p: nat {:trigger Since(arrivals, node, p)} ::
         p < samplesPerReport ==> Since(arrivals, node, p) <= samplesPerReport - p
  {
    hide Since;
    var p: nat :| Since(arrivals, node, p) > 0 && p + Since(arrivals, node, p) == counter;
    NoneSince(arrivals, node, p, samplesPerReport);
    assert p < samplesPerReport;
    if counter <= samplesPerReport {
      forall q: nat | q < samplesPerReport ensures Since(arrivals, node, q) <= samplesPerReport - q {
        assert Since(arrivals, node, q) > 0 ==> q + Since(arrivals, node, q) <= counter;
      }
    } else {
      assert Since(arrivals, node, p) > samplesPerReport - p;
    }
  }

  lemma {:induction false} OthersCount(es: seq<Element>, arrivals: seq<(nat, nat)>, samplesPerReport: nat,
      a: (nat, nat), node: nat)
    requires CountsNode(es, arrivals, samplesPerReport, node) && a.0 != node
    ensures CountsNode(es, arrivals + [a], samplesPerReport, node)
    ensures forall p: nat {:trigger Since(arrivals, node, p)} ::
      Since(arrivals + [a], node, p) == Since(arrivals, node, p)
  {
    forall p: nat ensures Since(arrivals + [a], node, p) == Since(arrivals, node, p) {
      SinceOneMore(arrivals, a, node, p);
    }
    var k := Find(es, node);
    if k < |es| {
      var p: nat :| Since(arrivals, node, p) > 0 && p + Since(arrivals, node, p) == es[k].counter;
      assert Since(arrivals + [a], node, p) > 0;
    }
  }

  // A sample changes the element of its own node only.
  lemma {:induction false} FindOther(es: seq<Element>, node: nat, sample: Option<nat>, samplesPerReport: nat,
      period: nat, other: nat)
    requires Fits(es, node, samplesPerReport, period) && other != node
    ensures var es' := AddSample(es, node, sample, samplesPerReport, period);
            if Find(es, other) < |es|
            then Find(es', other) == Find(es, other) && es'[Find(es, other)] == es[Find(es, other)]
            else Find(es', other) == |es'|
  {
    var es' := AddSample(es, node, sample, samplesPerReport, period);
    var k, k' := Find(es, other), Find(es', other);
    assert forall j :: 0 <= j < |es| ==> es'[j].node == es[j].node;
    if k < |es| { assert es'[k].node == other; }
  }

  // There is room for a sample exactly when the arrivals with it leave room.
  lemma {:induction false} FitsIff(st: State, arrivals: seq<(nat, nat)>, node: nat)
    requires Tracks(st, arrivals) && st.samplesPerReport > 0
    ensures Fits(st.elements, node, st.samplesPerReport, st.period)
      <==> Roomy(arrivals + [(node, st.period)], st.samplesPerReport)
  {
    var k, spr, after := Find(st.elements, node), st.samplesPerReport, arrivals + [(node, st.period)];
    assert CountsNode(st.elements, arrivals, spr, node);
    var counter := if k < |st.elements| then st.elements[k].counter else 0;
    CountsOneMore(counter, arrivals, node, st.period);
    CounterIsRoom(Max(counter, st.period) + 1, after, spr, node);
    forall n, p: nat | n != node ensures Since(after, n, p) == Since(arrivals, n, p) {
      SinceOneMore(arrivals, (node, st.period), n, p);
    }
  }

  lemma {:induction false} SampleTracks(st: State, arrivals: seq<(nat, nat)>, node: nat, value: nat)
    requires Tracks(st, arrivals) && st.samplesPerReport > 0 && CanStep(st, Sample(node, value))
    ensures Tracks(Next(st, Sample(node, value)), arrivals + [(node, st.period)])
  {
    var es, spr, period, after := st.elements, st.samplesPerReport, st.period, arrivals + [(node, st.period)];
    FitsIff(st, arrivals, node);
    var es' := AddSample(es, node, Some(value), spr, period);
    forall n ensures CountsNode(es', after, spr, n) {
      assert CountsNode(es, arrivals, spr, n);
      if n == node {
        FindAgain(es, node, Some(value), spr, period);
        var k := Find(es, node);
        CountsOneMore(if k < |es| then es[k].counter else 0, arrivals, node, period);
      } else {
        OthersCount(es, arrivals, spr, (node, period), n);
        FindOther(es, node, Some(value), spr, period, n);
      }
    }
  }

  lemma {:induction false} IncrementTracks(st: State, arrivals: seq<(nat, nat)>, ev: Event)
    requires Tracks(st, arrivals) && ev.Increment?
    ensures Tracks(Next(st, ev), ArrivalsNext(arrivals, st.samplesPerReport, st.period, ev))
  {
    hide Since, Counts;
    NothingSince(st.samplesPerReport);
  }

  lemma {:induction false} NothingSince(samplesPerReport: nat)
    ensures Roomy([], samplesPerReport) && forall node :: CountsNode([], [], samplesPerReport, node)
  {
  }

  /** Over every run, across reports, there is room for every sample if and only if in each report no
      node sends more samples in some period and later than there are periods from there on. */
  lemma {:induction false} RunHasRoomIff(st: State, arrivals: seq<(nat, nat)>, evs: seq<Event>)
    requires Tracks(st, arrivals)
    ensures Run(st, evs).Some? <==> AllRoomy(arrivals, st.samplesPerReport, st.period, evs)
    decreases |evs|
  {
    hide Tracks, Roomy, Fits, AddSample;
    if evs == [] {
      TracksIsRoomy(st, arrivals);
    } else {
      var after := ArrivalsNext(arrivals, st.samplesPerReport, st.period, evs[0]);
      TracksIsRoomy(st, arrivals);
      if evs[0].Increment? {
        IncrementTracks(st, arrivals, evs[0]);
        RunHasRoomIff(Next(st, evs[0]), after, evs[1..]);
      } else if st.samplesPerReport == 0 {
        RunHasRoomIff(st, arrivals, evs[1..]);
      } else {
        FitsIff(st, arrivals, evs[0].node);
        if CanStep(st, evs[0]) {
          SampleTracks(st, arrivals, evs[0].node, evs[0].value);
          RunHasRoomIff(Next(st, evs[0]), after, evs[1..]);
        }
      }
    }
  }

  lemma {:induction false} TracksIsRoomy(st: State, arrivals: seq<(nat, nat)>)
    requires Tracks(st, arrivals)
    ensures Roomy(arrivals, st.samplesPerReport)
  {
  }

  // A run starts with no samples and an empty list.
  lemma {:induction false} StartTracks(samplesPerReport: nat)
    ensures Tracks(State([], 0, samplesPerReport), [])
  {
    NothingSince(samplesPerReport);
  }

  /** A node's next sample goes to its own period's slot if and only if the node has sent, in every
      period and later, no more samples than there were periods from there to now. */
  lemma {:induction false} FiledInPeriodIff(st: State, arrivals: seq<(nat, nat)>, node: nat)
    requires Tracks(st, arrivals) && Find(st.elements, node) < |st.elements|
    ensures Place(st.elements[Find(st.elements, node)], st.period) == st.period
       <==> forall p: nat {:trigger Since(arrivals, node, p)} ::
         p <= st.period ==> Since(arrivals, node, p) <= st.period - p
  {
    assert CountsNode(st.elements, arrivals, st.samplesPerReport, node);
    var counter := st.elements[Find(st.elements, node)].counter;
    hide Since, CountsNode, Find, Roomy;
    var p: nat :| Since(arrivals, node, p) > 0 && p + Since(arrivals, node, p) == counter;
    NoneSince(arrivals, node, p, st.period + 1);
    if counter <= st.period {
      forall q: nat | q <= st.period ensures Since(arrivals, node, q) <= st.period - q {
        assert Since(arrivals, node, q) > 0 ==> q + Since(arrivals, node, q) <= counter;
      }
    } else {
      assert Since(arrivals, node, p) > st.period - p;
    }
  }
}
