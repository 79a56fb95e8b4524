/**
 Hop-by-hop delivery of a configuration request (bcmp_ll_forward and the forwarding decision of
 bcmp_process_packet and bcmp_process_config_message) along a line of two-port nodes whose ports may
 face either way.
 */
module Forwarding {

  /** Node i has id ids[i]; its port 1 faces node i - 1 if portOneLeft[i], and node i + 1 otherwise. */
  datatype Network = Network(ids: seq<nat>, portOneLeft: seq<bool>) {
    ghost predicate Valid() {
      && |ids| == |portOneLeft|
      && forall i, j :: 0 <= i < j < |ids| ==> ids[i] != ids[j]
    }
  }

  /** A copy of the request, about to be received by node `at` on port `ingress`. */
  datatype Packet = Packet(at: nat, ingress: nat, hops: nat)

  /** The copies on the wire, the nodes that received one, in order, and those that handled it, with
      the hops it took. */
  datatype State = State(flying: seq<Packet>, seen: seq<nat>, handled: seq<(nat, nat)>)

  // The port of node i that faces left, or right.
  function PortFacing(net: Network, i: nat, left: bool): nat
    requires i < |net.portOneLeft|
  {
    if net.portOneLeft[i] == left then 1 else 2
  }

  // What leaves node i through a port arrives at the node beside it, or is lost at the line's end.
  function Transmit(net: Network, i: nat, port: nat, hops: nat): seq<Packet>
    requires i < |net.ids| == |net.portOneLeft|
  {
    var left := (port == 1) == net.portOneLeft[i];
    if left && i > 0 then [Packet(i - 1, PortFacing(net, i - 1, false), hops)]
    else if !left && i + 1 < |net.ids| then [Packet(i + 1, PortFacing(net, i + 1, true), hops)]
    else []
  }

  // A link-local request leaves its origin through both ports.
  function Send(net: Network, origin: nat): State
    requires origin < |net.ids| == |net.portOneLeft|
  {
    State(Transmit(net, origin, 1, 1) + Transmit(net, origin, 2, 1), [], [])
  }

  // bcmp_ll_forward: the egress port of a two-port device.
  function EgressPort(ingress: nat): nat {
    if ingress == 1 then 2 else 1
  }

  // What a receiver sends on: nothing if it is the target, and otherwise a copy through its other port.
  function Onward(net: Network, target: nat, p: Packet): seq<Packet>
    requires p.at < |net.ids| == |net.portOneLeft|
  {
    if net.ids[p.at] == target then [] else Transmit(net, p.at, EgressPort(p.ingress), p.hops + 1)
  }

  // Node `at` receives the k-th copy: it handles the request if it is the target, and otherwise
  // forwards it.
  function Receive(net: Network, target: nat, s: State, k: nat): State
    requires |net.ids| == |net.portOneLeft| && k < |s.flying| && s.flying[k].at < |net.ids|
  {
    var p := s.flying[k];
    State(s.flying[..k] + s.flying[k + 1..] + Onward(net, target, p),
          s.seen + [p.at],
          if net.ids[p.at] == target then s.handled + [(p.at, p.hops)] else s.handled)
  }

  // ---- the shape of every reachable state ----

  /** How far the request has come: `right` nodes to the right of its origin and `left` nodes to the
      left have received it. */
  datatype Reach = Reach(right: nat, left: nat)

  // The copy that travels right, or left.
  function Rightward(net: Network, o: nat, reach: Reach): Packet
    requires o + reach.right + 1 < |net.ids| == |net.portOneLeft|
  {
    Packet(o + reach.right + 1, PortFacing(net, o + reach.right + 1, true), reach.right + 1)
  }

  function Leftward(net: Network, o: nat, reach: Reach): Packet
    requires reach.left < o < |net.ids| == |net.portOneLeft|
  {
    Packet(o - reach.left - 1, PortFacing(net, o - reach.left - 1, false), reach.left + 1)
  }

  // A direction is over when its last receiver was the target, or there is no further node.
  predicate RightOver(net: Network, o: nat, target: nat, reach: Reach) {
    o + reach.right + 1 >= |net.ids| || (reach.right > 0 && net.ids[o + reach.right] == target)
  }

  predicate LeftOver(net: Network, o: nat, target: nat, reach: Reach) {
    reach.left >= o || o >= |net.ids| || (reach.left > 0 && net.ids[o - reach.left] == target)
  }

  ghost predicate InReach(o: nat, reach: Reach, x: int) {
    x != o && o - reach.left <= x <= o + reach.right
  }

  ghost predicate Shape(net: Network, o: nat, target: nat, s: State, reach: Reach) {
    && net.Valid() && o < |net.ids| && o + reach.right < |net.ids| && reach.left <= o
    && OnTheWire(s.flying, RightWire(net, o, target, reach), LeftWire(net, o, target, reach))
    && SeenInReach(o, s.seen, reach)
    && NotPassed(net, o, target, reach)
    && Handlers(net, o, target, s, reach)
  }

  // At most one copy travels each way.
  predicate OnTheWire(flying: seq<Packet>, right: seq<Packet>, left: seq<Packet>) {
    flying == right + left || flying == left + right
  }

  function RightWire(net: Network, o: nat, target: nat, reach: Reach): seq<Packet>
    requires o < |net.ids| == |net.portOneLeft|
  {
    if RightOver(net, o, target, reach) then [] else [Rightward(net, o, reach)]
  }

  function LeftWire(net: Network, o: nat, target: nat, reach: Reach): seq<Packet>
    requires o < |net.ids| == |net.portOneLeft|
  {
    if LeftOver(net, o, target, reach) then [] else [Leftward(net, o, reach)]
  }

  // Replacing one of the copies by what follows it.
  lemma {:induction false} Replaced(flying: seq<Packet>, q: Packet, other: seq<Packet>, k: nat, onward: seq<Packet>)
    requires OnTheWire(flying, [q], other) && k < |flying| && flying[k] == q
    requires |other| <= 1 && q !in other
    ensures flying[..k] + flying[k + 1..] + onward == other + onward
  {
    if flying == [q] + other {
      assert k == 0;
      assert flying[..0] == [] && flying[1..] == other;
    } else {
      assert k == |other|;
      assert flying[..k] == other && flying[k + 1..] == [];
    }
  }

  // Exactly the nodes in reach have received a copy, each once.
  ghost predicate SeenInReach(o: nat, seen: seq<nat>, reach: Reach) {
    && (forall x :: x in seen <==> InReach(o, reach, x))
    && (forall i, j :: 0 <= i < j < |seen| ==> seen[i] != seen[j])
  }

  // The request has not passed its target.
  ghost predicate NotPassed(net: Network, o: nat, target: nat, reach: Reach)
    requires o + reach.right < |net.ids| && reach.left <= o
  {
    forall x :: InReach(o, reach, x) && net.ids[x] == target ==> x == o + reach.right || x == o - reach.left
  }

  // The target, if it is in reach, has handled it once, after as many hops as it is away.
  ghost predicate Handlers(net: Network, o: nat, target: nat, s: State, reach: Reach)
    requires net.Valid() && o < |net.ids| && o + reach.right < |net.ids| && reach.left <= o
  {
    if reach.right > 0 && net.ids[o + reach.right] == target then s.handled == [(o + reach.right, reach.right)]
    else if reach.left > 0 && net.ids[o - reach.left] == target then s.handled == [(o - reach.left, reach.left)]
    else s.handled == []
  }

  lemma {:induction false} SendShape(net: Network, o: nat, target: nat)
    requires net.Valid() && o < |net.ids|
    ensures Shape(net, o, target, Send(net, o), Reach(0, 0))
  {
  }

  lemma {:induction false} ReceiveShape(net: Network, o: nat, target: nat, s: State, reach: Reach, k: nat)
      returns (reach': Reach)
    requires Shape(net, o, target, s, reach) && k < |s.flying|
    ensures s.flying[k].at < |net.ids| && s.flying[k].at !in s.seen
    ensures Shape(net, o, target, Receive(net, target, s, k), reach')
    ensures reach'.right + reach'.left == reach.right + reach.left + 1
  {
    var p := s.flying[k];
    if !RightOver(net, o, target, reach) && p == Rightward(net, o, reach) {
      reach' := Reach(reach.right + 1, reach.left);
      ReceivedRight(net, o, target, s, reach, k);
    } else {
      reach' := Reach(reach.right, reach.left + 1);
      ReceivedLeft(net, o, target, s, reach, k);
    }
  }

  lemma {:induction false} OneMoreSeen(o: nat, seen: seq<nat>, reach: Reach, x: nat, reach': Reach)
    requires SeenInReach(o, seen, reach) && reach.left <= o
    requires || (x == o + reach.right + 1 && reach' == Reach(reach.right + 1, reach.left))
             || (x == o - reach.left - 1 && reach' == Reach(reach.right, reach.left + 1))
    ensures SeenInReach(o, seen + [x], reach') && x !in seen
  {
    assert !InReach(o, reach, x);
    forall y ensures y in seen + [x] <==> InReach(o, reach', y) {
      assert y in seen + [x] <==> y in seen || y == x;
    }
  }

  lemma {:induction false} ReceivedRight(net: Network, o: nat, target: nat, s: State, reach: Reach, k: nat)
    requires Shape(net, o, target, s, reach) && k < |s.flying|
    requires !RightOver(net, o, target, reach) && s.flying[k] == Rightward(net, o, reach)
    ensures Shape(net, o, target, Receive(net, target, s, k), Reach(reach.right + 1, reach.left))
  {
    hide OnTheWire, SeenInReach, NotPassed, Handlers;
    var reach' := Reach(reach.right + 1, reach.left);
    OneMoreSeen(o, s.seen, reach, o + reach.right + 1, reach');
    NotPassedOnward(net, o, target, reach, reach');
    WireAfterRight(net, o, target, s, reach, k);
    HandlersAfterRight(net, o, target, s, reach, k);
    assert Receive(net, target, s, k).seen == s.seen + [o + reach.right + 1];
  }

  // What the receiver sends on is the next copy in that direction, if there is one.
  lemma {:induction false} OnwardRight(net: Network, o: nat, target: nat, reach: Reach)
    requires net.Valid() && o < |net.ids| && !RightOver(net, o, target, reach)
    ensures Onward(net, target, Rightward(net, o, reach))
      == RightWire(net, o, target, Reach(reach.right + 1, reach.left))
    ensures LeftWire(net, o, target, Reach(reach.right + 1, reach.left)) == LeftWire(net, o, target, reach)
  {
  }

  lemma {:induction false} WireAfterRight(net: Network, o: nat, target: nat, s: State, reach: Reach, k: nat)
    requires Shape(net, o, target, s, reach) && k < |s.flying|
    requires !RightOver(net, o, target, reach) && s.flying[k] == Rightward(net, o, reach)
    ensures var reach' := Reach(reach.right + 1, reach.left);
            OnTheWire(Receive(net, target, s, k).flying, RightWire(net, o, target, reach'),
              LeftWire(net, o, target, reach'))
  {
    hide SeenInReach, NotPassed, Handlers, Transmit, LeftOver, Onward;
    OnwardRight(net, o, target, reach);
    Replaced(s.flying, s.flying[k], LeftWire(net, o, target, reach), k, Onward(net, target, s.flying[k]));
  }

  lemma {:induction false} HandlersAfterRight(net: Network, o: nat, target: nat, s: State, reach: Reach, k: nat)
    requires Shape(net, o, target, s, reach) && k < |s.flying|
    requires !RightOver(net, o, target, reach) && s.flying[k] == Rightward(net, o, reach)
    ensures Handlers(net, o, target, Receive(net, target, s, k), Reach(reach.right + 1, reach.left))
  {
    hide SeenInReach, OnTheWire, NotPassed;
  }

  lemma {:induction false} ReceivedLeft(net: Network, o: nat, target: nat, s: State, reach: Reach, k: nat)
    requires Shape(net, o, target, s, reach) && k < |s.flying|
    requires !LeftOver(net, o, target, reach) && s.flying[k] == Leftward(net, o, reach)
    ensures Shape(net, o, target, Receive(net, target, s, k), Reach(reach.right, reach.left + 1))
  {
    hide OnTheWire, SeenInReach, NotPassed, Handlers;
    var reach' := Reach(reach.right, reach.left + 1);
    OneMoreSeen(o, s.seen, reach, o - reach.left - 1, reach');
    NotPassedOnward(net, o, target, reach, reach');
    WireAfterLeft(net, o, target, s, reach, k);
    HandlersAfterLeft(net, o, target, s, reach, k);
    assert Receive(net, target, s, k).seen == s.seen + [o - reach.left - 1];
  }

  // What the receiver sends on is the next copy in that direction, if there is one.
  lemma {:induction false} OnwardLeft(net: Network, o: nat, target: nat, reach: Reach)
    requires net.Valid() && o < |net.ids| && !LeftOver(net, o, target, reach)
    ensures Onward(net, target, Leftward(net, o, reach)) == LeftWire(net, o, target, Reach(reach.right, reach.left + 1))
    ensures RightWire(net, o, target, Reach(reach.right, reach.left + 1)) == RightWire(net, o, target, reach)
  {
  }

  lemma {:induction false} WireAfterLeft(net: Network, o: nat, target: nat, s: State, reach: Reach, k: nat)
    requires Shape(net, o, target, s, reach) && k < |s.flying|
    requires !LeftOver(net, o, target, reach) && s.flying[k] == Leftward(net, o, reach)
    ensures var reach' := Reach(reach.right, reach.left + 1);
            OnTheWire(Receive(net, target, s, k).flying, RightWire(net, o, target, reach'),
              LeftWire(net, o, target, reach'))
  {
    hide SeenInReach, NotPassed, Handlers, Transmit, RightOver, Onward;
    OnwardLeft(net, o, target, reach);
    Replaced(s.flying, s.flying[k], RightWire(net, o, target, reach), k, Onward(net, target, s.flying[k]));
  }

  lemma {:induction false} HandlersAfterLeft(net: Network, o: nat, target: nat, s: State, reach: Reach, k: nat)
    requires Shape(net, o, target, s, reach) && k < |s.flying|
    requires !LeftOver(net, o, target, reach) && s.flying[k] == Leftward(net, o, reach)
    ensures Handlers(net, o, target, Receive(net, target, s, k), Reach(reach.right, reach.left + 1))
  {
    hide SeenInReach, OnTheWire, NotPassed;
  }

  lemma {:induction false} NotPassedOnward(net: Network, o: nat, target: nat, reach: Reach, reach': Reach)
    requires net.Valid() && o + reach.right < |net.ids| && reach.left <= o && NotPassed(net, o, target, reach)
    requires || (reach' == Reach(reach.right + 1, reach.left) && !RightOver(net, o, target, reach))
             || (reach' == Reach(reach.right, reach.left + 1) && !LeftOver(net, o, target, reach))
    ensures NotPassed(net, o, target, reach')
  {
    forall x | InReach(o, reach', x) && net.ids[x] == target
      ensures x == o + reach'.right || x == o - reach'.left
    {
      if InReach(o, reach, x) { assert x == o + reach.right || x == o - reach.left; }
    }
  }

  // ---- whole runs, in any order of reception ----

  // The state after receiving copies in the given order, as long as there are any.
  function Run(net: Network, target: nat, s: State, order: seq<nat>): State
    requires |net.ids| == |net.portOneLeft|
    decreases |order|
  {
    if order == [] || s.flying == [] || s.flying[order[0] % |s.flying|].at >= |net.ids| then s
    else Run(net, target, Receive(net, target, s, order[0] % |s.flying|), order[1..])
  }

  lemma {:induction false} RunShape(net: Network, o: nat, target: nat, s: State, reach: Reach, order: seq<nat>)
    returns (reach': Reach)
    requires Shape(net, o, target, s, reach)
    ensures Shape(net, o, target, Run(net, target, s, order), reach')
    ensures Run(net, target, s, order).flying == [] || reach'.right + reach'.left == reach.right + reach.left + |order|
    decreases |order|
  {
    if order == [] || s.flying == [] {
      reach' := reach;
    } else {
      var k := order[0] % |s.flying|;
      reach' := ReceiveShape(net, o, target, s, reach, k);
      reach' := RunShape(net, o, target, Receive(net, target, s, k), reach', order[1..]);
    }
  }

  // The position of a node with the target's id, other than the origin.
  ghost predicate IsTarget(net: Network, o: nat, target: nat, t: nat) {
    t < |net.ids| && t != o && net.ids[t] == target
  }

  function Distance(a: nat, b: nat): nat {
    if a < b then b - a else a - b
  }

  /** Safety, in every order of reception: no node receives the request twice, no node but the target
      handles it, the target at most once and after exactly as many hops as it is away, and no node
      beyond the target receives it. */
  lemma {:induction false} DeliveredAtMostOnce(net: Network, o: nat, target: nat, order: seq<nat>)
    requires net.Valid() && o < |net.ids|
    ensures var s := Run(net, target, Send(net, o), order);
            && (forall i, j :: 0 <= i < j < |s.seen| ==> s.seen[i] != s.seen[j])
            && (s.handled == [] || exists t: nat :: IsTarget(net, o, target, t) && s.handled == [(t, Distance(o, t))])
            && (forall t: nat, x | IsTarget(net, o, target, t) && x in s.seen :: !(o < t < x) && !(x < t < o))
  {
    hide Run, Send, Shape, IsTarget;
    SendShape(net, o, target);
    var reach := RunShape(net, o, target, Send(net, o), Reach(0, 0), order);
    var s := Run(net, target, Send(net, o), order);
    HandledByTarget(net, o, target, s, reach);
    NoneBeyond(net, o, target, s, reach);
  }

  lemma {:induction false} HandledByTarget(net: Network, o: nat, target: nat, s: State, reach: Reach)
    requires Shape(net, o, target, s, reach)
    ensures s.handled == [] || exists t: nat :: IsTarget(net, o, target, t) && s.handled == [(t, Distance(o, t))]
  {
    hide OnTheWire, SeenInReach, NotPassed;
    if s.handled != [] {
      var t: nat := s.handled[0].0;
      assert IsTarget(net, o, target, t) && s.handled == [(t, Distance(o, t))];
    }
  }

  lemma {:induction false} NoneBeyond(net: Network, o: nat, target: nat, s: State, reach: Reach)
    requires Shape(net, o, target, s, reach)
    ensures forall i, j :: 0 <= i < j < |s.seen| ==> s.seen[i] != s.seen[j]
    ensures forall t: nat, x | IsTarget(net, o, target, t) && x in s.seen :: !(o < t < x) && !(x < t < o)
  {
    hide OnTheWire, Handlers;
    forall t: nat, x | IsTarget(net, o, target, t) && x in s.seen ensures !(o < t < x) && !(x < t < o) {
      assert InReach(o, reach, x);
      assert o < t < x || x < t < o ==> InReach(o, reach, t);
    }
  }

  /** Liveness: after as many receptions as there are nodes, nothing is on the wire any more, and the
      target has handled the request exactly if it is another node of the line. */
  lemma {:induction false} DeliveredExactlyOnce(net: Network, o: nat, target: nat, order: seq<nat>)
    requires net.Valid() && o < |net.ids| <= |order|
    ensures var s := Run(net, target, Send(net, o), order);
            && s.flying == []
            && (forall t: nat :: IsTarget(net, o, target, t) ==> s.handled == [(t, Distance(o, t))])
            && ((forall t: nat :: !IsTarget(net, o, target, t)) ==> s.handled == [])
  {
    SendShape(net, o, target);
    var reach := RunShape(net, o, target, Send(net, o), Reach(0, 0), order);
    var s := Run(net, target, Send(net, o), order);
    assert s.flying == [];
    assert RightOver(net, o, target, reach) && LeftOver(net, o, target, reach);
    forall t: nat | IsTarget(net, o, target, t) ensures s.handled == [(t, Distance(o, t))] {
      TargetReached(net, o, target, s, reach, t);
    }
    if forall t: nat :: !IsTarget(net, o, target, t) {
      assert !IsTarget(net, o, target, o + reach.right) && !IsTarget(net, o, target, o - reach.left);
    }
  }

  lemma {:induction false} TargetReached(net: Network, o: nat, target: nat, s: State, reach: Reach, t: nat)
    requires Shape(net, o, target, s, reach) && IsTarget(net, o, target, t)
    requires RightOver(net, o, target, reach) && LeftOver(net, o, target, reach)
    ensures s.handled == [(t, Distance(o, t))]
  {
    if t > o {
      assert t <= o + reach.right ==> InReach(o, reach, t);
    } else {
      assert t >= o - reach.left ==> InReach(o, reach, t);
    }
  }
}
