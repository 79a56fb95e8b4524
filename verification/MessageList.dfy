/**
 The message list of src/lib/bcmp/bcmp.cpp as it is kept in memory: a singly linked list of request
 elements, searched, unlinked and expired in place.
 */
module MessageList {

  import opened RequestList

  /** bcmp_request_element; `uid` is the place of the request in the order of sending. */
  class RequestElement {
    const seqNum: u16
    const sentAt: u32
    const timeout: u32
    const callback: Option<nat>
    ghost const uid: nat
    var next: RequestElement?

    constructor (seqNum: u16, timeout: u32, callback: Option<nat>, now: u32, ghost uid: nat)
      ensures Value() == Request(uid, seqNum, now, timeout, callback) && next == null
    {
      this.seqNum, this.timeout, this.callback, this.sentAt, this.uid := seqNum, timeout, callback, now, uid;
      next := null;
    }

    ghost function Value(): Request {
      Request(uid, seqNum, sentAt, timeout, callback)
    }

    predicate IsExpired(now: u32)
      ensures IsExpired(now) == Expired(Value(), now)
    {
      (now - sentAt) % 0x1_0000_0000 > timeout
    }
  }

  // A header's number as the 16-bit parameters of the list's functions take it.
  function Low16(seqNum: u32): u16 {
    seqNum % 0x1_0000
  }

  lemma {:induction false} LowBits(n: nat)
    ensures n % 0x1_0000_0000 % 0x1_0000 == n % 0x1_0000
  {
  }

  // Values of the elements, in list order.
  ghost function Values(es: seq<RequestElement>): (rs: seq<Request>)
    ensures |rs| == |es|
    ensures forall i :: 0 <= i < |es| ==> rs[i] == es[i].Value()
  {
    if es == [] then [] else [es[0].Value()] + Values(es[1..])
  }

  // One element left out of a list without repetitions.
  ghost function WithoutAt(es: seq<RequestElement>, k: nat): (r: seq<RequestElement>)
    requires k < |es|
    ensures |r| == |es| - 1
    ensures forall i :: 0 <= i < k ==> r[i] == es[i]
    ensures forall i :: k <= i < |r| ==> r[i] == es[i + 1]
    ensures r == Without(es, k)
  {
    Without(es, k)
  }

  // The callbacks called by some departures, in order.
  function Calls(ds: seq<Departure>): seq<nat> {
    if ds == [] then [] else CallOf(ds[0]) + Calls(ds[1..])
  }

  function CallOf(d: Departure): seq<nat> {
    if d.called.Some? then [d.called.value] else []
  }

  // Every departure that has a callback calls it, once, in the order of the departures.
  lemma {:induction false} CallsInOrder(ds: seq<Departure>, i: nat)
    requires i < |ds|
    ensures ds[i].called == None ==> Calls(ds[..i + 1]) == Calls(ds[..i])
    ensures ds[i].called.Some? ==> Calls(ds[..i + 1]) == Calls(ds[..i]) + [ds[i].called.value]
    ensures Calls([]) == [] && Calls(ds[..i + 1]) <= Calls(ds)
  {
    var before, d, after := ds[..i], ds[i], ds[i + 1..];
    CallsOfOne(d);
    CallsOfSum(before, [d]);
    assert ds[..i + 1] == before + [d];
    CallsOfSum(before + [d], after);
    assert ds == before + [d] + after;
  }

  lemma {:induction false} CallsOfOne(d: Departure)
    ensures Calls([d]) == CallOf(d)
  {
    assert [d][1..] == [];
  }

  lemma {:induction false} CallsOfSum(a: seq<Departure>, b: seq<Departure>)
    ensures Calls(a + b) == Calls(a) + Calls(b)
  {
    hide CallOf;
    if a == [] {
      assert a + b == b;
    } else {
      var rest := a[1..] + b;
      assert a + b == [a[0]] + rest && (a + b)[1..] == rest;
      CallsOfSum(a[1..], b);
      assert Calls(a + b) == CallOf(a[0]) + (Calls(a[1..]) + Calls(b));
    }
  }

  class MessageList {
    var head: RequestElement?
    var messageCount: u32
    ghost var elems: seq<RequestElement>
    ghost var repr: set<RequestElement>
    ghost var log: seq<Request>
    ghost var departed: seq<Departure>

    ghost predicate Linked()
      reads this`head, this`elems, this`repr, repr
    {
      && (forall i, j :: 0 <= i < j < |elems| ==> elems[i] != elems[j])
      && (forall i :: 0 <= i < |elems| ==> elems[i] in repr)
      && head == At(0)
      && (forall i :: 0 <= i < |elems| ==> elems[i].next == At(i + 1))
    }

    ghost function At(i: nat): RequestElement?
      reads this`elems
    {
      if i < |elems| then elems[i] else null
    }

    ghost function State(): Table
      reads this
    {
      Table(Values(elems), log, departed)
    }

    // RequestElement `k` is unlinked and nothing else is: what is left is linked.
    twostate lemma {:induction false} Unlinked(k: nat)
      requires old(Linked()) && k < old(|elems|)
      requires elems == WithoutAt(old(elems), k) && repr == old(repr)
      requires if k == 0 then head == old(At(1)) else head == old(head) && old(elems[k - 1]).next == old(At(k + 1))
      requires forall e :: e in repr && !(k > 0 && e == old(elems[k - 1])) ==> e.next == old(e.next)
      ensures Linked()
    {
    }

    ghost predicate Valid()
      reads this, repr
    {
      Linked() && messageCount == |log| % 0x1_0000_0000
    }

    constructor ()
      ensures Valid() && State() == EMPTY && repr == {}
    {
      head, messageCount, elems, repr, log, departed := null, 0, [], {}, [], [];
    }

    method AddMessage(message: RequestElement)
      requires Valid() && message !in repr && message.next == null
      modifies this`head, this`elems, this`repr, repr
      ensures Valid() && elems == old(elems) + [message]
      ensures Values(elems) == old(Values(elems)) + [message.Value()]
      ensures repr == old(repr) + {message}
    {
      hide Values;
      ValuesAppended(elems, message);
      if head == null {
        head := message;
      } else {
        var current: RequestElement := head;
        ghost var i := 0;
        while current.next != null
          invariant i < |elems| && current == elems[i]
          invariant elems == old(elems) && repr == old(repr) && Valid()
          decreases |elems| - i
        {
          current, i := current.next, i + 1;
        }
        current.next := message;
      }
      elems, repr := elems + [message], repr + {message};
    }

    /** Unlinks an element, found by its address; `k` is where it is, or the length when it is not here. */
    method RemoveMessage(message: RequestElement, ghost k: nat) returns (removed: bool)
      requires Valid() && k <= |elems|
      requires if k < |elems| then elems[k] == message else message !in elems
      modifies this`head, this`elems, repr
      ensures Valid() && removed == (k < old(|elems|))
      ensures removed ==> elems == Without(old(elems), k) && |elems| == old(|elems|) - 1
      ensures removed ==> Values(elems) == Without(old(Values(elems)), k)
      ensures !removed ==> elems == old(elems)
    {
      hide Values, WithoutAt, Without, Linked;
      ghost var es := elems;
      InTheList(0);
      InTheList(k);
      removed := false;
      if head == message {
        Distinct(0, k);
        head := message.next;
        removed := true;
      } else {
        var current := head;
        ghost var i := 0;
        while current != null && current.next != message
          invariant Linked() && elems == es && head == old(head) && repr == old(repr)
          invariant i <= k && current == At(i) && (i == k ==> current == null)
          invariant current != null ==> current in repr && current.next == At(i + 1)
          invariant forall e :: e in repr ==> e.next == old(e.next)
          decreases |elems| - i
        {
          current, i := current.next, i + 1;
          InTheList(i);
        }
        if current != null {
          Distinct(i + 1, k);
          current.next := current.next.next;
          removed := true;
        }
      }
      if removed {
        ValuesWithout(es, k);
        elems := WithoutAt(es, k);
        Unlinked(k);
      }
    }

    method FindMessage(seqNum: u16) returns (found: RequestElement?)
      requires Valid()
      ensures found == At(Find(Values(elems), seqNum))
    {
      hide Values;
      var current := head;
      ghost var i := 0;
      while current != null
        invariant i <= |elems| && current == At(i)
        invariant forall j :: 0 <= j < i ==> elems[j].seqNum != seqNum
        decreases |elems| - i
      {
        if current.seqNum == seqNum { return current; }
        current, i := current.next, i + 1;
      }
      return null;
    }

    /** The part of bcmp_tx that numbers a sequenced request and puts it on the list: the header carries
        32 bits of the count, the list keeps 16. */
    method SendRequest(timeout: u32, callback: Option<nat>, now: u32) returns (seqNum: u32)
      requires Valid()
      modifies this, repr
      ensures Valid() && fresh(repr - old(repr))
      ensures State() == Next(old(State()), Send(timeout, callback, now))
      ensures seqNum == old(|log|) % 0x1_0000_0000
    {
      hide Values, Linked;
      seqNum := messageCount;
      LowBits(|log|);
      var message := new RequestElement(Low16(seqNum), timeout, callback, now, |log|);
      messageCount := if messageCount == 0xFFFF_FFFF then 0 else messageCount + 1;
      log := log + [message.Value()];
      AddMessage(message);
    }

    /** The part of bcmp_process_packet that matches a sequenced reply: only the low 16 bits of the
        header's number are looked up. */
    method MatchReply(seqNum: u32) returns (cb: Option<nat>)
      requires Valid()
      modifies this, repr
      ensures Valid() && repr == old(repr) && State() == Next(old(State()), Reply(Low16(seqNum)))
      ensures departed == old(departed) ==> cb == None
      ensures departed != old(departed) ==> cb == departed[|departed| - 1].called
    {
      hide Values, Linked;
      cb := None;
      var sentMessage := FindMessage(Low16(seqNum));
      if sentMessage != null {
        ghost var k := Find(Values(elems), Low16(seqNum));
        cb := sentMessage.callback;
        departed := departed + [Answered(sentMessage.Value())];
        var _ := RemoveMessage(sentMessage, k);
      }
    }

    lemma {:induction false} InTheList(i: nat)
      requires Linked() && i <= |elems|
      ensures i < |elems| ==> elems[i] in repr && elems[i].next == At(i + 1)
      ensures head == At(0)
      ensures i == |elems| ==> At(i) == null
    {
    }

    lemma {:induction false} Distinct(i: nat, k: nat)
      requires Linked() && i <= k < |elems| && elems[i] == elems[k]
      ensures i == k
    {
    }

    /** The expiry pass: after each removal the walk starts again at the head. */
    method Expire(now: u32) returns (called: seq<nat>)
      requires Valid()
      modifies this, repr
      ensures Valid() && repr == old(repr) && State() == Next(old(State()), RequestList.Expire(now))
      ensures called == Calls(Overdue(old(Values(elems)), now))
    {
      hide Values, Expiring, Expired, Without, Late, OnTime, Linked, Live, Overdue, Calls, Find;
      ghost var rs0, ds0 := Values(elems), departed;
      BeforeExpiry(rs0, ds0, now);
      NoneSeen(rs0, now);
      InTheList(0);
      var current := head;
      ghost var i := 0;
      called := [];
      while current != null
        invariant Valid() && i <= |elems| && current == At(i)
        invariant messageCount == old(messageCount) && log == old(log)
        invariant OnTime(Values(elems), i, now)
        invariant repr == old(repr)
        invariant Expiring(Values(elems), departed, called, rs0, ds0, now)
        decreases |elems|, |elems| - i
      {
        InTheList(i);
        if current.IsExpired(now) {
          OneExpired(Values(elems), i, departed, called, rs0, ds0, now);
          if current.callback.Some? {
            called := called + [current.callback.value];
          }
          departed := departed + [Late(current.Value(), now)];
          var _ := RemoveMessage(current, i);
          NoneSeen(Values(elems), now);
          InTheList(0);
          current, i := head, 0;
          continue;
        }
        OneMoreOnTime(Values(elems), i, now);
        current, i := current.next, i + 1;
      }
      AllExpired(Values(elems), departed, called, rs0, ds0, now);
    }
  }

  // None of the first `k` requests is overdue.
  predicate OnTime(rs: seq<Request>, k: nat, now: u32) {
    k <= |rs| && forall j :: 0 <= j < k ==> !Expired(rs[j], now)
  }

  lemma {:induction false} NoneSeen(rs: seq<Request>, now: u32)
    ensures OnTime(rs, 0, now)
  {
  }

  lemma {:induction false} OneMoreOnTime(rs: seq<Request>, k: nat, now: u32)
    requires k < |rs| && OnTime(rs, k, now) && !Expired(rs[k], now)
    ensures OnTime(rs, k + 1, now)
  {
  }

  // What the expiry pass has still to do, from the list, the departures and the calls so far.
  ghost predicate Expiring(rs: seq<Request>, ds: seq<Departure>, called: seq<nat>,
                           rs0: seq<Request>, ds0: seq<Departure>, now: u32) {
    && Live(rs, now) == Live(rs0, now)
    && ds + Overdue(rs, now) == ds0 + Overdue(rs0, now)
    && called + Calls(Overdue(rs, now)) == Calls(Overdue(rs0, now))
  }

  lemma {:induction false} BeforeExpiry(rs: seq<Request>, ds: seq<Departure>, now: u32)
    ensures Expiring(rs, ds, [], rs, ds, now)
  {
    hide Live, Overdue, Calls;
  }

  lemma {:induction false} OneExpired(rs: seq<Request>, k: nat, ds: seq<Departure>, called: seq<nat>,
                   rs0: seq<Request>, ds0: seq<Departure>, now: u32)
    requires Expiring(rs, ds, called, rs0, ds0, now)
    requires k < |rs| && Expired(rs[k], now) && OnTime(rs, k, now)
    ensures var calls := if rs[k].callback.Some? then called + [rs[k].callback.value] else called;
            Expiring(Without(rs, k), ds + [Late(rs[k], now)], calls, rs0, ds0, now)
  {
    FirstLate(rs, k, now);
    var d, rest := Late(rs[k], now), Overdue(Without(rs, k), now);
    CallsOfFirst(d, rest);
    hide Live, Overdue, Calls, Expired, Without;
    assert (ds + [d]) + rest == ds + ([d] + rest);
  }

  lemma {:induction false} AllExpired(rs: seq<Request>, ds: seq<Departure>, called: seq<nat>,
                   rs0: seq<Request>, ds0: seq<Departure>, now: u32)
    requires Expiring(rs, ds, called, rs0, ds0, now)
    requires OnTime(rs, |rs|, now)
    ensures rs == Live(rs0, now) && ds == ds0 + Overdue(rs0, now) && called == Calls(Overdue(rs0, now))
  {
    NoneLate(rs, now);
    assert Calls([]) == [];
    hide Live, Overdue, Calls, Expired;
  }

  lemma {:induction false} ValuesAppended(es: seq<RequestElement>, e: RequestElement)
    ensures Values(es + [e]) == Values(es) + [e.Value()]
  {
    hide Values;
  }

  lemma {:induction false} ValuesWithout(es: seq<RequestElement>, k: nat)
    requires k < |es|
    ensures Values(Without(es, k)) == Without(Values(es), k)
  {
    hide Values;
    var a, b := Values(Without(es, k)), Without(Values(es), k);
    assert |a| == |b|;
    forall i | 0 <= i < |a| ensures a[i] == b[i] {
      if i < k {
        assert Without(es, k)[i] == es[i];
      } else {
        assert Without(es, k)[i] == es[i + 1];
      }
    }
  }

  lemma {:induction false} CallsOfFirst(d: Departure, ds: seq<Departure>)
    ensures Calls([d] + ds) == (if d.called.Some? then [d.called.value] else []) + Calls(ds)
  {
    assert ([d] + ds)[1..] == ds;
  }

  lemma {:induction false} NoneLate(rs: seq<Request>, now: u32)
    requires OnTime(rs, |rs|, now)
    ensures Live(rs, now) == rs && Overdue(rs, now) == []
  {
    if rs == [] {
    } else {
      NoneLate(rs[1..], now);
    }
  }

  // The first overdue request is the next to leave; taking it out changes nothing else.
  lemma {:induction false} FirstLate(rs: seq<Request>, k: nat, now: u32)
    requires k < |rs| && Expired(rs[k], now)
    requires OnTime(rs, k, now)
    ensures Live(Without(rs, k), now) == Live(rs, now)
    ensures Overdue(rs, now) == [Late(rs[k], now)] + Overdue(Without(rs, k), now)
  {
    hide Expired;
    if k == 0 {
      assert Without(rs, 0) == rs[1..];
    } else {
      FirstLate(rs[1..], k - 1, now);
      WithoutInRest(rs, k);
    }
  }

  lemma {:induction false} WithoutInRest(rs: seq<Request>, k: nat)
    requires 0 < k < |rs|
    ensures Without(rs, k) == [rs[0]] + Without(rs[1..], k - 1)
  {
    assert rs[..k] == [rs[0]] + rs[1..][..k - 1];
    assert rs[1..][k..] == rs[k + 1..];
  }
}
