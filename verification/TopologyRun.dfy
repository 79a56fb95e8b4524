/**
 Whole discoveries on a line network: the event loop, when it ends, and what it has built.
 `answered(i)` says whether the i-th request is answered before its time-out.
 */
module TopologyRun {
  import opened TopologyWalk

  // ---- the event loop ----

  function Reply(net: seq<Table>, target: nat, k: nat): Table
    requires k < |net|
    decreases |net| - k
  {
    if net[k].nodeId == target || k + 1 == |net| then net[k] else Reply(net, target, k + 1)
  }

  function Step(net: seq<Table>, w: Walk, answer: bool): Walk
    requires |net| > 0 && CursorIn(w)
  {
    match w.pending
    case Check => CheckNode(w)
    case Waiting(target) => if answer then AddNode(w, Reply(net, target, 0)) else TimedOut(w)
    case Done => w
  }

  lemma {:induction false} StepKeepsCursor(net: seq<Table>, w: Walk, answer: bool)
    requires |net| > 0 && CursorIn(w)
    ensures CursorIn(Step(net, w, answer))
  {
  }

  // The walk after n events, with the number of requests that have ended.
  function Run(net: seq<Table>, w: Walk, answered: nat -> bool, i: nat, n: nat): (w': Walk)
    requires |net| > 0 && CursorIn(w)
    ensures CursorIn(w')
    decreases n
  {
    if n == 0 then w
    else
      StepKeepsCursor(net, w, answered(i));
      Run(net, Step(net, w, answered(i)), answered, if w.pending.Waiting? then i + 1 else i, n - 1)
  }

  lemma {:induction false} ReplyIs(net: seq<Table>, q: int, k: nat)
    requires Line(net) && k <= q < |net|
    ensures Reply(net, net[q].nodeId, k) == net[q]
    decreases q - k
  {
    if net[k].nodeId == net[q].nodeId { SameNode(net, k, q); }
    if k >= q {
    } else {
      ReplyIs(net, q, k + 1);
    }
  }

  // ---- discovery as a function that ends ----

  // The layout after one event.
  ghost function After(net: seq<Table>, lay: Layout, w: Walk, answer: bool): Layout {
    if w.pending.Waiting? && answer && exists q :: Asked(net, lay, w, q) then
      var q :| Asked(net, lay, w, q);
      Grown(lay, w, q)
    else
      lay
  }

  // The next event is the time-out that loses the cursor.
  ghost predicate LosesCursor(lay: Layout, w: Walk, answer: bool) {
    w.pending.Waiting? && !answer && Strands(lay, w)
  }

  lemma {:induction false} StepGood(net: seq<Table>, r: int, lay: Layout, w: Walk, answer: bool)
    requires Line(net) && Good(net, r, lay, w) && !w.pending.Done? && !LosesCursor(lay, w, answer)
    ensures Good(net, r, After(net, lay, w, answer), Step(net, w, answer))
    ensures Progress(net, r, lay, w, After(net, lay, w, answer), Step(net, w, answer))
    ensures Thorough(net, r, lay, w) && answer ==> Thorough(net, r, After(net, lay, w, answer), Step(net, w, answer))
  {
    match w.pending
    case Done =>
    case Check => CheckNodeGood(net, r, lay, w);
    case Waiting(_) =>
      if answer {
        var q :| Asked(net, lay, w, q);
        AddNodeGood(net, r, lay, w, q);
        OnlyOneAsked(net, lay, w, q);
        hide Segment, Explored, Unexplored, WayBack, AddNode, Grown, Thorough, Good, Progress;
      } else {
        TimedOutGood(net, r, lay, w);
      }
  }

  lemma {:induction false} OnlyOneAsked(net: seq<Table>, lay: Layout, w: Walk, q: int)
    requires Line(net) && Asked(net, lay, w, q)
    ensures After(net, lay, w, true) == Grown(lay, w, q)
    ensures Step(net, w, true) == AddNode(w, net[q])
  {
    ReplyIs(net, q, 0);
    forall p {:trigger Asked(net, lay, w, p)} | Asked(net, lay, w, p) ensures p == q { SameNode(net, p, q); }
    hide AddNode, Grown;
  }

  lemma {:induction false} GoodFacts(net: seq<Table>, r: int, lay: Layout, w: Walk)
    requires Good(net, r, lay, w)
    ensures |net| > 0 && CursorIn(w)
    ensures Unexplored(net, r, lay, w) >= 0 && WayBack(lay, w) >= 0
  {
    NonNegative(net, r, lay, w);
  }

  /** Discovery reaches its end, or the cursor is lost beyond the root. */
  datatype Outcome = Ended(walk: Walk, layout: Layout) | Lost(walk: Walk, layout: Layout)

  ghost function Discover(net: seq<Table>, r: int, lay: Layout, w: Walk, answered: nat -> bool, i: nat): Outcome
    requires Line(net) && Good(net, r, lay, w)
    decreases Unexplored(net, r, lay, w), WayBack(lay, w)
  {
    if w.pending.Done? then Ended(w, lay)
    else if LosesCursor(lay, w, answered(i)) then Lost(TimedOut(w), lay)
    else
      GoodFacts(net, r, lay, w);
      StepGood(net, r, lay, w, answered(i));
      Discover(net, r, After(net, lay, w, answered(i)), Step(net, w, answered(i)), answered,
        if w.pending.Waiting? then i + 1 else i)
  }

  lemma {:induction false} StartGood(net: seq<Table>, r: int)
    requires Line(net) && 0 <= r < |net|
    ensures Good(net, r, Layout(r, 1, 0), Start(net[r])) && Thorough(net, r, Layout(r, 1, 0), Start(net[r]))
  {
  }

  ghost function Discovery(net: seq<Table>, r: int, answered: nat -> bool): Outcome
    requires Line(net) && 0 <= r < |net|
  {
    StartGood(net, r);
    Discover(net, r, Layout(r, 1, 0), Start(net[r]), answered, 0)
  }

  /** When discovery ends, its list is a duplicate-free contiguous segment of the line, in one
      orientation, with the root in it once and under the cursor. */
  lemma {:induction false} EndedIsSegment(net: seq<Table>, r: int, lay: Layout, w: Walk, answered: nat -> bool, i: nat)
    requires Line(net) && Good(net, r, lay, w)
    ensures var out := Discover(net, r, lay, w, answered, i);
            out.Ended? ==> Good(net, r, out.layout, out.walk) && out.walk.pending.Done?
    decreases Unexplored(net, r, lay, w), WayBack(lay, w)
  {
    hide Line, Segment, Explored, Asked, Unexplored, WayBack, Step, After, Good, Thorough;
    GoodFacts(net, r, lay, w);
    if w.pending.Done? || LosesCursor(lay, w, answered(i)) {
    } else {
      StepGood(net, r, lay, w, answered(i));
      EndedIsSegment(net, r, After(net, lay, w, answered(i)), Step(net, w, answered(i)), answered,
        if w.pending.Waiting? then i + 1 else i);
    }
  }

  // ---- every request answered ----

  lemma {:induction false} AnsweredIsThorough(net: seq<Table>, r: int, lay: Layout, w: Walk,
      answered: nat -> bool, i: nat)
    requires Line(net) && Good(net, r, lay, w) && Thorough(net, r, lay, w)
    requires forall k {:trigger answered(k)} :: answered(k)
    ensures var out := Discover(net, r, lay, w, answered, i);
            out.Ended? && Good(net, r, out.layout, out.walk) && Thorough(net, r, out.layout, out.walk)
              && out.walk.pending.Done?
    decreases Unexplored(net, r, lay, w), WayBack(lay, w)
  {
    hide Line, Segment, Explored, Asked, Unexplored, WayBack, Step, After, Good, Thorough;
    GoodFacts(net, r, lay, w);
    assert answered(i);
    if w.pending.Done? {
    } else {
      StepGood(net, r, lay, w, answered(i));
      AnsweredIsThorough(net, r, After(net, lay, w, answered(i)), Step(net, w, answered(i)), answered,
        if w.pending.Waiting? then i + 1 else i);
    }
  }

  // The list holds exactly the line's tables in physical order, or in reverse.
  ghost predicate ListsLine(net: seq<Table>, entries: seq<Entry>, reversed: bool) {
    && |entries| == |net|
    && forall j :: 0 <= j < |net| ==> entries[j].table == net[if reversed then |net| - 1 - j else j]
  }

  ghost predicate OnlyRoot(net: seq<Table>, r: int, entries: seq<Entry>)
    requires 0 <= r < |net|
  {
    forall j :: 0 <= j < |entries| ==> (entries[j].isRoot <==> entries[j].table == net[r])
  }

  /** With every request answered, discovery from a root anywhere on the line ends, with a list of
      exactly the line's tables in physical order, up to reversal, and one root. */
  lemma {:induction false} DiscoversWholeLine(net: seq<Table>, r: int, answered: nat -> bool)
    requires Line(net) && 0 <= r < |net|
    requires forall k {:trigger answered(k)} :: answered(k)
    ensures var out := Discovery(net, r, answered);
            && out.Ended? && out.walk.pending.Done?
            && (ListsLine(net, out.walk.entries, false) || ListsLine(net, out.walk.entries, true))
            && OnlyRoot(net, r, out.walk.entries)
  {
    StartGood(net, r);
    AnsweredIsThorough(net, r, Layout(r, 1, 0), Start(net[r]), answered, 0);
    var out := Discovery(net, r, answered);
    FinalList(net, r, out.layout, out.walk);
  }

  lemma {:induction false} FinalList(net: seq<Table>, r: int, lay: Layout, w: Walk)
    requires Line(net) && 0 <= r < |net| && Good(net, r, lay, w) && Thorough(net, r, lay, w) && w.pending.Done?
    ensures ListsLine(net, w.entries, lay.step != 1) && OnlyRoot(net, r, w.entries)
  {
    WholeLine(net, r, lay, w);
    TablesInOrder(net, r, lay, w);
  }

  lemma {:induction false} WholeLine(net: seq<Table>, r: int, lay: Layout, w: Walk)
    requires Line(net) && Good(net, r, lay, w) && Thorough(net, r, lay, w) && w.pending.Done?
    ensures |w.entries| == |net|
    ensures lay.At(0) == if lay.step == 1 then 0 else |net| - 1
  {
    var n, last := |net|, |w.entries| - 1;
    if n > 1 {
      assert Degree(n, r) >= 1;
      assert last > lay.root;
      assert Degree(n, lay.At(last)) == 1;
      assert Degree(n, lay.At(0)) == 1;
    }
  }

  lemma {:induction false} TablesInOrder(net: seq<Table>, r: int, lay: Layout, w: Walk)
    requires Line(net) && Segment(net, r, lay, w) && |w.entries| == |net|
    requires lay.At(0) == if lay.step == 1 then 0 else |net| - 1
    ensures ListsLine(net, w.entries, lay.step != 1) && 0 <= r < |net| && OnlyRoot(net, r, w.entries)
  {
    forall j | 0 <= j < |net| ensures w.entries[j].isRoot <==> w.entries[j].table == net[r] {
      assert w.entries[j].table == net[lay.At(j)];
      if w.entries[j].table == net[r] { SameNode(net, lay.At(j), r); }
    }
  }

  // ---- requests that time out ----

  // The cursor has passed the root on its way back, and every node from there on is explored.
  ghost predicate Spinning(lay: Layout, w: Walk) {
    && w.insertBefore && w.pending.Check? && lay.root < w.index < |w.entries| && lay.root >= 0
    && forall j :: lay.root < j < |w.entries| ==> AllPortsExplored(w.entries[j]) && !w.entries[j].isRoot
  }

  lemma {:induction false} StrandedSpins(net: seq<Table>, r: int, lay: Layout, w: Walk)
    requires Line(net) && Good(net, r, lay, w) && w.pending.Waiting? && Strands(lay, w)
    ensures Spinning(lay, TimedOut(w))
  {
    forall j | lay.root < j < |w.entries| ensures AllPortsExplored(w.entries[j]) {
      FullyExplored(net, lay.At(j), w.entries[j]);
    }
  }

  // From there the loop checks nodes for ever.
  lemma {:induction false} SpinsForEver(net: seq<Table>, lay: Layout, w: Walk, answered: nat -> bool, i: nat, n: nat)
    requires |net| > 0 && Spinning(lay, w)
    ensures var w' := Run(net, w, answered, i, n);
            w'.pending.Check? && w'.entries == w.entries
    decreases n
  {
    if n == 0 {
    } else {
      assert Spinning(lay, Step(net, w, answered(i)));
      SpinsForEver(net, lay, Step(net, w, answered(i)), answered, i, n - 1);
    }
  }

  // The loop reaches its end exactly when Discover does, with the same list.
  lemma {:induction false} LoopEndsIff(net: seq<Table>, r: int, lay: Layout, w: Walk, answered: nat -> bool, i: nat)
    returns (n: nat)
    requires Line(net) && Good(net, r, lay, w) && |net| > 0 && CursorIn(w)
    ensures var out := Discover(net, r, lay, w, answered, i);
            if out.Ended? then Run(net, w, answered, i, n) == out.walk && out.walk.pending.Done?
            else NeverEnds(net, w, answered, i)
    decreases Unexplored(net, r, lay, w), WayBack(lay, w)
  {
    hide Line, Segment, Explored, Asked, Unexplored, WayBack, Step, After, Good, Thorough, NeverEnds, Strands;
    GoodFacts(net, r, lay, w);
    n := 0;
    if LosesCursor(lay, w, answered(i)) {
      StrandedSpins(net, r, lay, w);
      NeverEndsOnceLost(net, lay, w, answered, i);
    } else if !w.pending.Done? {
      var w', i' := Step(net, w, answered(i)), if w.pending.Waiting? then i + 1 else i;
      StepGood(net, r, lay, w, answered(i));
      StepKeepsCursor(net, w, answered(i));
      n := LoopEndsIff(net, r, After(net, lay, w, answered(i)), w', answered, i');
      OneStepMore(net, w, answered, i, w', i', n);
      n := n + 1;
    }
  }

  ghost predicate NeverEnds(net: seq<Table>, w: Walk, answered: nat -> bool, i: nat)
    requires |net| > 0 && CursorIn(w)
  {
    forall m: nat :: !Run(net, w, answered, i, m).pending.Done?
  }

  lemma {:induction false} NeverEndsOnceLost(net: seq<Table>, lay: Layout, w: Walk, answered: nat -> bool, i: nat)
    requires |net| > 0 && CursorIn(w) && w.pending.Waiting? && !answered(i) && Spinning(lay, TimedOut(w))
    ensures NeverEnds(net, w, answered, i)
  {
    forall m: nat ensures !Run(net, w, answered, i, m).pending.Done? {
      if m > 0 { SpinsForEver(net, lay, TimedOut(w), answered, i + 1, m - 1); }
    }
  }

  lemma {:induction false} OneStepMore(net: seq<Table>, w: Walk, answered: nat -> bool, i: nat, w': Walk,
      i': nat, n: nat)
    requires |net| > 0 && CursorIn(w) && CursorIn(w') && !w.pending.Done?
    requires Step(net, w, answered(i)) == w' && i' == (if w.pending.Waiting? then i + 1 else i)
    ensures Run(net, w, answered, i, n + 1) == Run(net, w', answered, i', n)
    ensures NeverEnds(net, w', answered, i') ==> NeverEnds(net, w, answered, i)
  {
    if NeverEnds(net, w', answered, i') {
      forall m: nat ensures !Run(net, w, answered, i, m).pending.Done? {
        if m > 0 { assert Run(net, w, answered, i, m) == Run(net, w', answered, i', m - 1); }
      }
    }
  }

  // The list, wherever the cursor is, is a segment of the line with the root in it once.
  ghost predicate ListIsSegment(net: seq<Table>, r: int, entries: seq<Entry>) {
    exists lay: Layout :: LaidOut(net, r, lay, entries)
  }

  ghost predicate LaidOut(net: seq<Table>, r: int, lay: Layout, entries: seq<Entry>) {
    && (lay.step == 1 || lay.step == -1) && 0 <= lay.root < |entries| && lay.At(lay.root) == r
    && forall j :: 0 <= j < |entries| ==>
         0 <= lay.At(j) < |net| && entries[j].table == net[lay.At(j)] && (entries[j].isRoot <==> j == lay.root)
  }

  lemma {:induction false} GoodIsLaidOut(net: seq<Table>, r: int, lay: Layout, w: Walk)
    requires Good(net, r, lay, w)
    ensures LaidOut(net, r, lay, w.entries)
  {
  }

  /** Safety at every step of every discovery, whichever requests time out, ended or lost. */
  lemma {:induction false} AlwaysSegment(net: seq<Table>, r: int, lay: Layout, w: Walk, answered: nat -> bool,
      i: nat, n: nat)
    returns (end: Layout)
    requires Line(net) && Good(net, r, lay, w) && |net| > 0 && CursorIn(w)
    ensures LaidOut(net, r, end, Run(net, w, answered, i, n).entries)
    decreases n
  {
    hide Line, Segment, Explored, Asked, Unexplored, WayBack, Step, After, Good, Thorough, LaidOut, Spinning, Strands,
      Progress;
    if n == 0 {
      GoodIsLaidOut(net, r, lay, w);
      end := lay;
    } else {
      StepKeepsCursor(net, w, answered(i));
      var w', i' := Step(net, w, answered(i)), if w.pending.Waiting? then i + 1 else i;
      if w.pending.Done? {
        StepWhenDone(net, w, answered(i));
        end := AlwaysSegment(net, r, lay, w', answered, i', n - 1);
      } else if LosesCursor(lay, w, answered(i)) {
        GoodIsLaidOut(net, r, lay, w);
        StrandedSpins(net, r, lay, w);
        StepWhenLost(net, w, answered(i));
        SpinsForEver(net, lay, w', answered, i', n - 1);
        end := lay;
      } else {
        StepGood(net, r, lay, w, answered(i));
        end := AlwaysSegment(net, r, After(net, lay, w, answered(i)), w', answered, i', n - 1);
      }
    }
  }

  lemma {:induction false} StepWhenDone(net: seq<Table>, w: Walk, answer: bool)
    requires |net| > 0 && CursorIn(w) && w.pending.Done?
    ensures Step(net, w, answer) == w
  {
  }

  lemma {:induction false} StepWhenLost(net: seq<Table>, w: Walk, answer: bool)
    requires |net| > 0 && CursorIn(w) && w.pending.Waiting? && !answer
    ensures Step(net, w, answer) == TimedOut(w) && TimedOut(w).entries == w.entries
  {
  }

  lemma {:induction false} EveryStepIsSegment(net: seq<Table>, r: int, answered: nat -> bool, n: nat)
    requires Line(net) && 0 <= r < |net|
    ensures ListIsSegment(net, r, Run(net, Start(net[r]), answered, 0, n).entries)
  {
    StartGood(net, r);
    var lay := AlwaysSegment(net, r, Layout(r, 1, 0), Start(net[r]), answered, 0, n);
    assert LaidOut(net, r, lay, Run(net, Start(net[r]), answered, 0, n).entries);
  }

  // ---- exactly when discovery ends ----

  // The number of the root's second request: the first side is asked node by node, until a request
  // is not answered or its `nodes` nodes are all in the list.
  ghost function SecondRequest(answered: nat -> bool, i: nat, nodes: nat): nat
    decreases nodes
  {
    if nodes == 0 then i
    else if !answered(i) then i + 1
    else SecondRequest(answered, i + 1, nodes - 1)
  }

  // The nodes on the side of the root's neighbor with the given id.
  function Side(net: seq<Table>, r: int, id: nat): nat
    requires 0 <= r < |net|
  {
    if r + 1 < |net| && net[r + 1].nodeId == id then |net| - 1 - r else r
  }

  function FirstSide(net: seq<Table>, r: int): nat
    requires 0 <= r < |net|
  {
    if |net[r].neighbors| > 0 then Side(net, r, net[r].neighbors[0].nodeId) else 0
  }

  // The nodes of the line beyond node p, seen from the root.
  function Beyond(n: nat, r: int, p: int): int {
    if p > r then n - 1 - p else p
  }

  // Discovery gets lost exactly when the root has two neighbors, its first request is answered and
  // its second is not.
  ghost predicate LosesItself(net: seq<Table>, r: int, answered: nat -> bool)
    requires 0 <= r < |net|
  {
    Degree(|net|, r) == 2 && answered(0) && !answered(SecondRequest(answered, 0, FirstSide(net, r)))
  }

  // The same, from any point of a discovery on: whether the root's second request will be the one
  // that strands the cursor.
  ghost predicate WillBeLost(net: seq<Table>, r: int, lay: Layout, w: Walk, answered: nat -> bool, i: nat)
    requires Line(net) && 0 <= r < |net| && Good(net, r, lay, w)
  {
    var n, last := |net|, |w.entries| - 1;
    && Degree(n, r) == 2
    && if w.insertBefore then w.pending.Waiting? && Strands(lay, w) && !answered(i)
       else if last == 0 then
         match w.pending
         case Done => false
         case Check => w.entries[0].explored == 0 && answered(i)
           && !answered(SecondRequest(answered, i, FirstSide(net, r)))
         case Waiting(id) => answered(i) && !answered(SecondRequest(answered, i, Side(net, r, id)))
       else if w.index == last && (w.pending.Waiting? || w.entries[last].explored < Degree(n, lay.At(last))) then
         !answered(SecondRequest(answered, i, Beyond(n, r, lay.At(last))))
       else !answered(i)
  }

  lemma {:induction false} CheckKeepsLoss(net: seq<Table>, r: int, lay: Layout, w: Walk, answered: nat -> bool, i: nat)
    requires Line(net) && 0 <= r < |net| && Good(net, r, lay, w) && w.pending.Check? && Good(net, r, lay, CheckNode(w))
    ensures WillBeLost(net, r, lay, w, answered, i) <==> WillBeLost(net, r, lay, CheckNode(w), answered, i)
  {
    FullyExplored(net, lay.At(w.index), w.entries[w.index]);
    if w.entries[w.index].explored != Degree(|net|, lay.At(w.index)) {
      var q := NextToAsk(net, r, lay, w);
      if |w.entries| == 1 && w.entries[0].explored == 0 {
        // nothing else is in the list, so the first neighbor is asked
        FirstIsNew(net, r, lay, w);
      }
    }
  }

  lemma {:induction false} FirstIsNew(net: seq<Table>, r: int, lay: Layout, w: Walk)
    requires Line(net) && 0 <= r < |net| && Good(net, r, lay, w) && |w.entries| == 1 && Degree(|net|, r) > 0
    ensures |net[r].neighbors| > 0
    ensures NewNeighbor(w.entries, net[r].neighbors, 0) == net[r].neighbors[0].nodeId
  {
    hide Explored, Asked, Online;
    assert ListsNeighbors(net, r);
    assert exists j :: Adjacent(|net|, r, j) && net[j].nodeId == net[r].neighbors[0].nodeId;
    var j :| Adjacent(|net|, r, j) && net[j].nodeId == net[r].neighbors[0].nodeId;
    ListedIff(net, r, lay, w, j);
    assert !InTopology(w.entries, net[j].nodeId);
  }

  lemma {:induction false} TimeOutKeepsLoss(net: seq<Table>, r: int, lay: Layout, w: Walk,
      answered: nat -> bool, i: nat)
    requires Line(net) && 0 <= r < |net| && Good(net, r, lay, w) && w.pending.Waiting? && Good(net, r, lay, TimedOut(w))
    requires !answered(i) && !Strands(lay, w)
    ensures WillBeLost(net, r, lay, w, answered, i) <==> WillBeLost(net, r, lay, TimedOut(w), answered, i + 1)
  {
    var q :| Asked(net, lay, w, q);
  }

  lemma {:induction false} AddKeepsLoss(net: seq<Table>, r: int, lay: Layout, w: Walk, q: int,
      answered: nat -> bool, i: nat)
    requires Line(net) && 0 <= r < |net| && Good(net, r, lay, w) && Asked(net, lay, w, q) && answered(i)
    requires Good(net, r, Grown(lay, w, q), AddNode(w, net[q]))
    ensures WillBeLost(net, r, lay, w, answered, i)
       <==> WillBeLost(net, r, Grown(lay, w, q), AddNode(w, net[q]), answered, i + 1)
  {
    ListedIff(net, r, lay, w, q);
    if w.insertBefore {
      PrependedValue(net, lay, w, q);
      PrependedLayout(net, r, lay, w, q);
      hide AddNode, Grown, Explored;
    } else {
      AppendedValue(net, lay, w, q);
      AppendedLayout(net, r, lay, w, q);
      hide AddNode, Grown, Explored;
      if |w.entries| == 1 {
        if r + 1 < |net| && net[r + 1].nodeId == net[q].nodeId { SameNode(net, r + 1, q); }
        assert Side(net, r, net[q].nodeId) == Beyond(|net|, r, q) + 1;
      } else {
        assert Beyond(|net|, r, lay.At(|w.entries| - 1)) == Beyond(|net|, r, q) + 1;
      }
    }
  }

  lemma {:induction false} StepKeepsLoss(net: seq<Table>, r: int, lay: Layout, w: Walk, answered: nat -> bool, i: nat)
    requires Line(net) && 0 <= r < |net| && Good(net, r, lay, w) && !w.pending.Done?
      && !LosesCursor(lay, w, answered(i))
    requires Good(net, r, After(net, lay, w, answered(i)), Step(net, w, answered(i)))
    ensures WillBeLost(net, r, lay, w, answered, i)
       <==> WillBeLost(net, r, After(net, lay, w, answered(i)), Step(net, w, answered(i)), answered,
         if w.pending.Waiting? then i + 1 else i)
  {
    match w.pending
    case Check => CheckKeepsLoss(net, r, lay, w, answered, i);
    case Waiting(_) =>
      if answered(i) {
        var q :| Asked(net, lay, w, q);
        OnlyOneAsked(net, lay, w, q);
        AddKeepsLoss(net, r, lay, w, q, answered, i);
      } else {
        TimeOutKeepsLoss(net, r, lay, w, answered, i);
      }
  }

  lemma {:induction false} LossAtHand(net: seq<Table>, r: int, lay: Layout, w: Walk, answered: nat -> bool, i: nat)
    requires Line(net) && 0 <= r < |net| && Good(net, r, lay, w)
    ensures LosesCursor(lay, w, answered(i)) ==> WillBeLost(net, r, lay, w, answered, i)
    ensures w.pending.Done? ==> !WillBeLost(net, r, lay, w, answered, i)
  {
  }

  lemma {:induction false} LostIff(net: seq<Table>, r: int, lay: Layout, w: Walk, answered: nat -> bool, i: nat)
    requires Line(net) && 0 <= r < |net| && Good(net, r, lay, w)
    ensures Discover(net, r, lay, w, answered, i).Lost? <==> WillBeLost(net, r, lay, w, answered, i)
    decreases Unexplored(net, r, lay, w), WayBack(lay, w)
  {
    hide Line, Segment, Explored, Asked, Unexplored, WayBack, Step, After, Good, Thorough, WillBeLost, LosesCursor;
    GoodFacts(net, r, lay, w);
    LossAtHand(net, r, lay, w, answered, i);
    if w.pending.Done? || LosesCursor(lay, w, answered(i)) {
    } else {
      StepGood(net, r, lay, w, answered(i));
      StepKeepsLoss(net, r, lay, w, answered, i);
      LostIff(net, r, After(net, lay, w, answered(i)), Step(net, w, answered(i)), answered,
        if w.pending.Waiting? then i + 1 else i);
    }
  }

  /** Discovery reaches its end, whichever requests time out, except exactly when the root has two
      neighbors, its first request is answered and its second times out; then the loop checks nodes
      for ever. */
  lemma {:induction false} DiscoveryEndsIff(net: seq<Table>, r: int, answered: nat -> bool)
    requires Line(net) && 0 <= r < |net|
    ensures (exists n: nat :: Run(net, Start(net[r]), answered, 0, n).pending.Done?) <==> !LosesItself(net, r, answered)
    ensures forall n: nat {:trigger Run(net, Start(net[r]), answered, 0, n)} ::
              Run(net, Start(net[r]), answered, 0, n).pending.Done? ==> !LosesItself(net, r, answered)
  {
    StartGood(net, r);
    var lay, w := Layout(r, 1, 0), Start(net[r]);
    LostIff(net, r, lay, w, answered, 0);
    var n := LoopEndsIff(net, r, lay, w, answered, 0);
    assert !LosesItself(net, r, answered) ==> Run(net, w, answered, 0, n).pending.Done?;
  }

  // A line of three nodes with the root in the middle: the first neighbor answers, the second does
  // not, and discovery never ends.
  lemma {:induction false} ThreeNodesGetLost()
    ensures var net := [Table(1, [true, true], [Neighbor(2, 1)]),
                        Table(2, [true, true], [Neighbor(1, 1), Neighbor(3, 2)]),
                        Table(3, [true, true], [Neighbor(2, 1)])];
            Line(net) && NeverEnds(net, Start(net[1]), k => k == 0, 0)
  {
    var net := [Table(1, [true, true], [Neighbor(2, 1)]),
                Table(2, [true, true], [Neighbor(1, 1), Neighbor(3, 2)]),
                Table(3, [true, true], [Neighbor(2, 1)])];
    assert Adjacent(3, 0, 1) && Adjacent(3, 1, 0) && Adjacent(3, 1, 2) && Adjacent(3, 2, 1);
    assert net[0].nodeId == 1 && net[1].nodeId == 2 && net[2].nodeId == 3;
    assert ListsNeighbors(net, 0) && ListsNeighbors(net, 1) && ListsNeighbors(net, 2);
    var first: nat -> bool := k => k == 0;
    assert FirstSide(net, 1) == 1 && SecondRequest(first, 0, 1) == 1;
    DiscoveryEndsIff(net, 1, first);
  }
}
