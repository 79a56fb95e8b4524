/**
 Outstanding BCMP requests (the message list of src/lib/bcmp/bcmp.cpp) as values: requests are appended
 when sent, and leave when a reply with their sequence number arrives or when they time out.
 */
module RequestList {

  type u16 = x: int | 0 <= x < 0x1_0000
  type u32 = x: int | 0 <= x < 0x1_0000_0000

  datatype Option<T> = None | Some(value: T)

  /** A request; `uid` is its place in the order of sending, of which the list keeps the low 16 bits. */
  datatype Request = Request(uid: nat, seqNum: u16, sentAt: u32, timeout: u32, callback: Option<nat>)

  datatype Cause = Replied(seqNum: u16) | TimedOut(now: u32)

  /** A request that left the list: why, and the callback that was called, if any. */
  datatype Departure = Departure(uid: nat, cause: Cause, called: Option<nat>)

  /** The list, every request ever sent (a request's `uid` is its index there) and every departure. */
  datatype Table = Table(pending: seq<Request>, log: seq<Request>, departed: seq<Departure>)

  datatype Event =
    | Send(timeout: u32, callback: Option<nat>, now: u32)
    | Reply(seqNum: u16)
    | Expire(now: u32)

  // ---- the steps ----

  // Unsigned 32-bit milliseconds since the request was sent, against its time-out.
  predicate Expired(r: Request, now: u32) {
    (now - r.sentAt) % 0x1_0000_0000 > r.timeout
  }

  function Fresh(log: seq<Request>, timeout: u32, callback: Option<nat>, now: u32): Request {
    Request(|log|, |log| % 0x1_0000, now, timeout, callback)
  }

  // The first request with the sequence number, or the length of the list.
  function Find(rs: seq<Request>, seqNum: u16): (k: nat)
    ensures k <= |rs|
    ensures k < |rs| ==> rs[k].seqNum == seqNum
    ensures forall j :: 0 <= j < k ==> rs[j].seqNum != seqNum
  {
    if rs == [] || rs[0].seqNum == seqNum then 0 else 1 + Find(rs[1..], seqNum)
  }

  function Without<T>(rs: seq<T>, k: nat): seq<T>
    requires k < |rs|
  {
    rs[..k] + rs[k + 1..]
  }

  function Live(rs: seq<Request>, now: u32): seq<Request> {
    if rs == [] then []
    else if Expired(rs[0], now) then Live(rs[1..], now)
    else [rs[0]] + Live(rs[1..], now)
  }

  function Overdue(rs: seq<Request>, now: u32): seq<Departure> {
    if rs == [] then []
    else if Expired(rs[0], now) then [Late(rs[0], now)] + Overdue(rs[1..], now)
    else Overdue(rs[1..], now)
  }

  function Late(r: Request, now: u32): Departure {
    Departure(r.uid, TimedOut(now), r.callback)
  }

  function Answered(r: Request): Departure {
    Departure(r.uid, Replied(r.seqNum), r.callback)
  }

  function Next(t: Table, ev: Event): Table {
    match ev
    case Send(timeout, callback, now) =>
      var r := Fresh(t.log, timeout, callback, now);
      Table(t.pending + [r], t.log + [r], t.departed)
    case Reply(seqNum) =>
      var k := Find(t.pending, seqNum);
      if k == |t.pending| then t
      else Table(Without(t.pending, k), t.log, t.departed + [Answered(t.pending[k])])
    case Expire(now) =>
      Table(Live(t.pending, now), t.log, t.departed + Overdue(t.pending, now))
  }

  function Run(t: Table, evs: seq<Event>): Table
    decreases |evs|
  {
    if evs == [] then t else Run(Next(t, evs[0]), evs[1..])
  }

  const EMPTY := Table([], [], [])

  // ---- every request leaves at most once, for a reason of its own ----

  ghost function Uids(rs: seq<Request>): multiset<nat> {
    if rs == [] then multiset{} else multiset{rs[0].uid} + Uids(rs[1..])
  }

  ghost function Gone(ds: seq<Departure>): multiset<nat> {
    if ds == [] then multiset{} else multiset{ds[0].uid} + Gone(ds[1..])
  }

  ghost function Sent(n: nat): multiset<nat> {
    if n == 0 then multiset{} else Sent(n - 1) + multiset{n - 1}
  }

  predicate InOrder(rs: seq<Request>) {
    forall i, j :: 0 <= i < j < |rs| ==> rs[i].uid < rs[j].uid
  }

  // Every request is listed under the low 16 bits of its place.
  predicate Numbered(log: seq<Request>) {
    forall i :: 0 <= i < |log| ==> log[i].uid == i && log[i].seqNum == i % 0x1_0000
  }

  predicate Logged(rs: seq<Request>, log: seq<Request>) {
    forall r :: r in rs ==> r.uid < |log| && log[r.uid] == r
  }

  // A departure has a cause that fits the request, and calls exactly that request's callback.
  predicate Justified(d: Departure, log: seq<Request>) {
    && d.uid < |log|
    && d.called == log[d.uid].callback
    && match d.cause
       case Replied(seqNum) => seqNum == log[d.uid].seqNum
       case TimedOut(now) => Expired(log[d.uid], now)
  }

  predicate AllJustified(ds: seq<Departure>, log: seq<Request>) {
    forall d :: d in ds ==> Justified(d, log)
  }

  ghost predicate Accounted(t: Table) {
    && InOrder(t.pending) && Numbered(t.log) && Logged(t.pending, t.log)
    && AllJustified(t.departed, t.log)
    && Uids(t.pending) + Gone(t.departed) == Sent(|t.log|)
  }

  lemma {:induction false} UidsOfSum(a: seq<Request>, b: seq<Request>)
    ensures Uids(a + b) == Uids(a) + Uids(b)
  {
    if a == [] {
      assert a + b == b;
    } else {
      assert (a + b)[1..] == a[1..] + b;
      UidsOfSum(a[1..], b);
    }
  }

  lemma {:induction false} GoneOfSum(a: seq<Departure>, b: seq<Departure>)
    ensures Gone(a + b) == Gone(a) + Gone(b)
  {
    if a == [] {
      assert a + b == b;
    } else {
      assert (a + b)[1..] == a[1..] + b;
      GoneOfSum(a[1..], b);
    }
  }

  lemma {:induction false} UidsOfOne(r: Request)
    ensures Uids([r]) == multiset{r.uid}
  {
    assert [r][1..] == [];
  }

  lemma {:induction false} GoneOfOne(d: Departure)
    ensures Gone([d]) == multiset{d.uid}
  {
    assert [d][1..] == [];
  }

  lemma {:induction false} SentOnce(n: nat, uid: nat)
    ensures Sent(n)[uid] == if uid < n then 1 else 0
  {
    if n == 0 {
    } else {
      SentOnce(n - 1, uid);
    }
  }

  // Expiry splits the list: exactly the overdue requests leave, each once.
  lemma {:induction false} ExpirySplits(rs: seq<Request>, now: u32)
    ensures Uids(Live(rs, now)) + Gone(Overdue(rs, now)) == Uids(rs)
  {
    hide Expired;
    if rs == [] {
    } else {
      ExpirySplits(rs[1..], now);
      if Expired(rs[0], now) {
        GoneOfOne(Late(rs[0], now));
        GoneOfSum([Late(rs[0], now)], Overdue(rs[1..], now));
      } else {
        UidsOfOne(rs[0]);
        UidsOfSum([rs[0]], Live(rs[1..], now));
      }
    }
  }

  /** In unbounded time: a request sent at some time is overdue once more than its time-out has passed,
      whether or not the 32-bit millisecond clock has wrapped since. */
  lemma {:induction false} ExpiredIff(r: Request, sentAt: nat, elapsed: nat)
    requires r.sentAt == sentAt % 0x1_0000_0000 && elapsed < 0x1_0000_0000
    ensures Expired(r, (sentAt + elapsed) % 0x1_0000_0000) <==> elapsed > r.timeout
  {
    var s, now := sentAt % 0x1_0000_0000, (sentAt + elapsed) % 0x1_0000_0000;
    assert now == s + elapsed || now == s + elapsed - 0x1_0000_0000 by { OneRound(sentAt, elapsed); }
  }

  lemma {:induction false} OneRound(a: nat, b: nat)
    requires b < 0x1_0000_0000
    ensures (a + b) % 0x1_0000_0000 == (if a % 0x1_0000_0000 + b < 0x1_0000_0000 then a % 0x1_0000_0000 + b
                                        else a % 0x1_0000_0000 + b - 0x1_0000_0000)
  {
  }

  /** A request leaves at a pass if and only if more than its time-out has passed since it was sent, and
      then its own callback is called; otherwise it is still waiting, whatever else the list holds. */
  lemma {:induction false} RequestLeavesIff(t: Table, timeout: u32, callback: Option<nat>, sentAt: nat, elapsed: nat)
    requires Accounted(t) && elapsed < 0x1_0000_0000
    ensures var u := Next(Next(t, Send(timeout, callback, sentAt % 0x1_0000_0000)),
                          Expire((sentAt + elapsed) % 0x1_0000_0000));
            var now := (sentAt + elapsed) % 0x1_0000_0000;
            && (elapsed > timeout <==> Departure(|t.log|, TimedOut(now), callback) in u.departed)
            && (elapsed > timeout <==> forall r :: r in u.pending ==> r.uid != |t.log|)
            && (elapsed <= timeout ==> u.pending != [] && u.pending[|u.pending| - 1].uid == |t.log|)
  {
    hide Uids, Gone, Sent, AllJustified, InOrder, Numbered, Expired;
    var r, now := Fresh(t.log, timeout, callback, sentAt % 0x1_0000_0000), (sentAt + elapsed) % 0x1_0000_0000;
    ExpiredIff(r, sentAt, elapsed);
    OverdueOfSum(t.pending, r, now);
    LiveAreOld(t.pending, now);
    NoDepartureYet(t, now);
    forall q | q in t.pending ensures q.uid < |t.log| {
    }
  }

  // A request at the end of the list is judged on its own.
  lemma {:induction false} OverdueOfSum(rs: seq<Request>, r: Request, now: u32)
    ensures Live(rs + [r], now) == Live(rs, now) + if Expired(r, now) then [] else [r]
    ensures Overdue(rs + [r], now) == Overdue(rs, now) + if Expired(r, now) then [Late(r, now)] else []
  {
    hide Expired;
    if rs == [] {
      assert [r][1..] == [];
      assert [] + [r] == [r];
    } else {
      assert (rs + [r])[1..] == rs[1..] + [r];
      OverdueOfSum(rs[1..], r, now);
    }
  }

  lemma {:induction false} LiveAreOld(rs: seq<Request>, now: u32)
    ensures forall r :: r in Live(rs, now) ==> r in rs
  {
    hide Expired;
    if rs == [] {
    } else {
      LiveAreOld(rs[1..], now);
    }
  }

  lemma {:induction false} NoDepartureYet(t: Table, now: u32)
    requires Accounted(t)
    ensures forall d :: d in t.departed ==> d.uid < |t.log|
    ensures forall d :: d in Overdue(t.pending, now) ==> d.uid < |t.log|
  {
    hide Uids, Gone, Sent, InOrder, Numbered, Expired;
    forall d | d in t.departed ensures d.uid < |t.log| { assert Justified(d, t.log); }
    OverdueAreOld(t.pending, t.log, now);
  }

  lemma {:induction false} OverdueAreOld(rs: seq<Request>, log: seq<Request>, now: u32)
    requires Logged(rs, log)
    ensures forall d :: d in Overdue(rs, now) ==> d.uid < |log|
  {
    hide Expired;
    if rs == [] {
    } else {
      assert rs[0] in rs;
      assert forall r :: r in rs[1..] ==> r in rs;
      OverdueAreOld(rs[1..], log, now);
    }
  }

  /** A reply calls the callback its request was sent with, if no older request has the same number. */
  lemma {:induction false} ReplyCallsBack(t: Table, timeout: u32, callback: Option<nat>, now: u32)
    requires forall r :: r in t.pending ==> r.seqNum != |t.log| % 0x1_0000
    ensures var seqNum := |t.log| % 0x1_0000;
            var u := Next(Next(t, Send(timeout, callback, now)), Reply(seqNum));
            u.pending == t.pending && u.departed == t.departed + [Departure(|t.log|, Replied(seqNum), callback)]
  {
    var r := Fresh(t.log, timeout, callback, now);
    var k := Find(t.pending + [r], r.seqNum);
    assert (t.pending + [r])[|t.pending|] == r;
    assert forall j :: 0 <= j < |t.pending| ==> (t.pending + [r])[j] == t.pending[j] && t.pending[j] in t.pending;
    assert Without(t.pending + [r], |t.pending|) == t.pending;
  }

  // On concrete times, with the clock about to wrap: 100 milliseconds are enough for the one request and
  // not for the other.
  lemma {:induction false} AcrossTheWrap()
    ensures var r := Request(0, 0, 0xFFFF_FFF6, 99, Some(7));
            Expired(r, 90) && !Expired(r, 89)
  {
  }

  lemma {:induction false} LiveAreTheRest(rs: seq<Request>, now: u32)
    ensures forall r :: r in Live(rs, now) <==> r in rs && !Expired(r, now)
  {
    hide Expired;
    if rs == [] {
    } else {
      LiveAreTheRest(rs[1..], now);
      assert forall r :: r in rs <==> r == rs[0] || r in rs[1..];
    }
  }

  lemma {:induction false} LiveInOrder(rs: seq<Request>, now: u32)
    requires InOrder(rs)
    ensures InOrder(Live(rs, now))
  {
    if rs == [] {
    } else {
      var rest := Live(rs[1..], now);
      LiveInOrder(rs[1..], now);
      LiveAreTheRest(rs[1..], now);
      hide Expired, Live;
      assert forall i :: 0 <= i < |rest| ==> rest[i] in rs[1..];
      assert InOrder([rs[0]] + rest);
    }
    assert InOrder(Live(rs, now));
  }

  lemma {:induction false} OverdueAreJustified(rs: seq<Request>, log: seq<Request>, now: u32)
    requires Logged(rs, log)
    ensures AllJustified(Overdue(rs, now), log)
  {
    if rs == [] {
    } else {
      assert rs[0] in rs;
      OverdueAreJustified(rs[1..], log, now);
    }
  }

  lemma {:induction false} Regroup(a: multiset<nat>, b: multiset<nat>, c: multiset<nat>)
    ensures (a + b) + c == (a + c) + b && (a + b) + c == a + (c + b)
  {
  }

  lemma {:induction false} SentAreCounted(t: Table, r: Request)
    requires Uids(t.pending) + Gone(t.departed) == Sent(|t.log|) && r.uid == |t.log|
    ensures Uids(t.pending + [r]) + Gone(t.departed) == Sent(|t.log + [r]|)
  {
    UidsOfSum(t.pending, [r]);
    UidsOfOne(r);
    Regroup(Uids(t.pending), multiset{r.uid}, Gone(t.departed));
    hide Uids, Gone;
  }

  lemma {:induction false} RepliedAreCounted(rs: seq<Request>, ds: seq<Departure>, k: nat)
    requires k < |rs|
    ensures Uids(Without(rs, k)) + Gone(ds + [Answered(rs[k])]) == Uids(rs) + Gone(ds)
  {
    var r, front, back := rs[k], rs[..k], rs[k + 1..];
    assert rs == (front + [r]) + back;
    UidsOfSum(front + [r], back);
    UidsOfSum(front, [r]);
    UidsOfOne(r);
    UidsOfSum(front, back);
    GoneOfSum(ds, [Answered(r)]);
    GoneOfOne(Answered(r));
    Regroup(Uids(front), multiset{r.uid}, Uids(back));
    Regroup(Uids(front) + Uids(back), multiset{r.uid}, Gone(ds));
    hide Uids, Gone;
  }

  lemma {:induction false} ExpiredAreCounted(rs: seq<Request>, ds: seq<Departure>, now: u32)
    ensures Uids(Live(rs, now)) + Gone(ds + Overdue(rs, now)) == Uids(rs) + Gone(ds)
  {
    ExpirySplits(rs, now);
    GoneOfSum(ds, Overdue(rs, now));
    Regroup(Uids(Live(rs, now)), Gone(Overdue(rs, now)), Gone(ds));
    hide Uids, Gone, Live, Overdue;
  }

  lemma {:induction false} SendKeepsOrder(t: Table, r: Request)
    requires InOrder(t.pending) && Logged(t.pending, t.log) && r.uid == |t.log|
    ensures InOrder(t.pending + [r]) && Logged(t.pending + [r], t.log + [r])
  {
    assert forall i :: 0 <= i < |t.pending| ==> t.pending[i] in t.pending;
    assert forall q :: q in t.pending ==> q.uid < |t.log| && (t.log + [r])[q.uid] == q;
  }

  lemma {:induction false} SendKeepsCauses(ds: seq<Departure>, log: seq<Request>, r: Request)
    requires AllJustified(ds, log)
    ensures AllJustified(ds, log + [r])
  {
    forall d | d in ds ensures Justified(d, log + [r]) {
      assert Justified(d, log);
      assert (log + [r])[d.uid] == log[d.uid];
    }
  }

  lemma {:induction false} CausesOfSum(a: seq<Departure>, b: seq<Departure>, log: seq<Request>)
    requires AllJustified(a, log) && AllJustified(b, log)
    ensures AllJustified(a + b, log)
  {
    hide Justified;
  }

  lemma {:induction false} SendAccounted(t: Table, timeout: u32, callback: Option<nat>, now: u32)
    requires Accounted(t)
    ensures Accounted(Next(t, Send(timeout, callback, now)))
  {
    hide Expired, Uids, Gone, Sent, AllJustified, InOrder, Logged, Numbered;
    var r := Fresh(t.log, timeout, callback, now);
    SentAreCounted(t, r);
    SendKeepsOrder(t, r);
    SendKeepsCauses(t.departed, t.log, r);
    SendKeepsNumbers(t.log, r);
  }

  lemma {:induction false} SendKeepsNumbers(log: seq<Request>, r: Request)
    requires Numbered(log) && r.uid == |log| && r.seqNum == |log| % 0x1_0000
    ensures Numbered(log + [r])
  {
  }

  lemma {:induction false} WithoutKeepsOrder(rs: seq<Request>, k: nat, log: seq<Request>)
    requires k < |rs| && InOrder(rs) && Logged(rs, log)
    ensures InOrder(Without(rs, k)) && Logged(Without(rs, k), log)
  {
    assert forall q :: q in Without(rs, k) ==> q in rs;
  }

  lemma {:induction false} ReplyAccounted(t: Table, seqNum: u16)
    requires Accounted(t)
    ensures Accounted(Next(t, Reply(seqNum)))
  {
    var k := Find(t.pending, seqNum);
    if k < |t.pending| {
      RepliedAreCounted(t.pending, t.departed, k);
      var r := t.pending[k];
      assert r in t.pending;
      assert AllJustified([Answered(r)], t.log);
      CausesOfSum(t.departed, [Answered(r)], t.log);
      WithoutKeepsOrder(t.pending, k, t.log);
      hide Expired, Uids, Gone, Sent, Find, InOrder, Logged, AllJustified;
    }
  }

  lemma {:induction false} ExpireAccounted(t: Table, now: u32)
    requires Accounted(t)
    ensures Accounted(Next(t, Expire(now)))
  {
    ExpiredAreCounted(t.pending, t.departed, now);
    LiveAreTheRest(t.pending, now);
    LiveInOrder(t.pending, now);
    OverdueAreJustified(t.pending, t.log, now);
    CausesOfSum(t.departed, Overdue(t.pending, now), t.log);
    hide Expired, Live, Overdue, Uids, Gone, Sent, InOrder, AllJustified, Numbered;
  }

  /** In every run, each request leaves the list at most once, by a reply with its number or by a
      time-out that was due, never both and never again; its own callback is called exactly then; until
      then it is in the list, which keeps the order of sending. */
  lemma {:induction false} LeavesAtMostOnce(t: Table, evs: seq<Event>)
    requires Accounted(t)
    ensures Accounted(Run(t, evs))
    decreases |evs|
  {
    hide Accounted, Next;
    if evs == [] {
    } else {
      match evs[0] {
        case Send(timeout, callback, now) => SendAccounted(t, timeout, callback, now);
        case Reply(seqNum) => ReplyAccounted(t, seqNum);
        case Expire(now) => ExpireAccounted(t, now);
      }
      LeavesAtMostOnce(Next(t, evs[0]), evs[1..]);
    }
  }

  // In numbers: a request sent is, at any time, once in the list or once among those that left it.
  lemma {:induction false} OnceInListOrGone(evs: seq<Event>, uid: nat)
    ensures var t := Run(EMPTY, evs);
            Uids(t.pending)[uid] + Gone(t.departed)[uid] == if uid < |t.log| then 1 else 0
  {
    assert Accounted(EMPTY);
    LeavesAtMostOnce(EMPTY, evs);
    SentOnce(|Run(EMPTY, evs).log|, uid);
  }

  // ---- which request a reply matches ----

  /** A reply to the request at `k` is matched to it exactly when no older request still in the list was
      sent a multiple of 65536 requests before it. */
  lemma {:induction false} ReplyMatchesIff(t: Table, k: nat)
    requires Accounted(t) && k < |t.pending|
    ensures Find(t.pending, t.pending[k].seqNum) == k
       <==> forall j :: 0 <= j < k ==> (t.pending[k].uid - t.pending[j].uid) % 0x1_0000 != 0
  {
    hide Uids, Gone, Sent, AllJustified, InOrder;
    forall j | 0 <= j < k
      ensures (t.pending[k].uid - t.pending[j].uid) % 0x1_0000 == 0 <==> t.pending[j].seqNum == t.pending[k].seqNum
    {
      assert t.pending[j] in t.pending && t.pending[k] in t.pending;
      SameResidue(t.pending[j].uid, t.pending[k].uid);
    }
  }

  lemma {:induction false} SameResidue(a: nat, b: nat)
    ensures (b - a) % 0x1_0000 == 0 <==> a % 0x1_0000 == b % 0x1_0000
  {
  }

  // In particular when the oldest outstanding request is less than 65536 requests old.
  lemma {:induction false} ReplyMatchesItsRequest(t: Table, k: nat)
    requires Accounted(t) && k < |t.pending|
    requires |t.log| - t.pending[0].uid <= 0x1_0000
    ensures Find(t.pending, t.pending[k].seqNum) == k
  {
    hide Uids, Gone, Sent, AllJustified, Numbered, Find;
    ReplyMatchesIff(t, k);
    assert t.pending[k] in t.pending;
    forall j | 0 <= j < k ensures (t.pending[k].uid - t.pending[j].uid) % 0x1_0000 != 0 {
      assert t.pending[0].uid <= t.pending[j].uid < t.pending[k].uid < |t.log|;
      SmallDifference(t.pending[k].uid - t.pending[j].uid);
    }
  }

  lemma {:induction false} SmallDifference(d: nat)
    requires 0 < d < 0x1_0000
    ensures d % 0x1_0000 != 0
  {
  }

  // `n` requests, each answered before the next is sent.
  function Chatter(first: nat, n: nat): seq<Event>
    decreases n
  {
    if n == 0 then [] else [Send(0, None, 0), Reply(first % 0x1_0000)] + Chatter(first + 1, n - 1)
  }

  lemma {:induction false} ChatterLeavesOld(t: Table, n: nat)
    requires |t.pending| == 1 && 1 <= |t.log| && |t.log| + n <= 0x1_0000 && t.pending[0].seqNum == 0
    ensures var u := Run(t, Chatter(|t.log|, n));
            u.pending == t.pending && |u.log| == |t.log| + n
    decreases n
  {
    if n == 0 {
    } else {
      var r := Fresh(t.log, 0, None, 0);
      var t1 := Next(t, Send(0, None, 0));
      var evs := Chatter(|t.log|, n);
      assert t1.pending == [t.pending[0], r];
      assert Find(t1.pending, r.seqNum) == 1;
      var t2 := Next(t1, Reply(r.seqNum));
      assert t2.pending == t.pending;
      assert evs[1..][0] == Reply(r.seqNum) && evs[1..][1..] == Chatter(|t.log| + 1, n - 1);
      ChatterLeavesOld(t2, n - 1);
    }
  }

  lemma {:induction false} RunOfSum(t: Table, a: seq<Event>, b: seq<Event>)
    ensures Run(t, a + b) == Run(Run(t, a), b)
    decreases |a|
  {
    hide Next;
    if a == [] {
      assert a + b == b;
    } else {
      assert (a + b)[1..] == a[1..] + b;
      RunOfSum(Next(t, a[0]), a[1..], b);
    }
  }

  function WrapAround(): seq<Event> {
    [Send(0xFFFF_FFFF, Some(7), 0)] + Chatter(1, 0xFFFF) + [Send(1000, Some(8), 0)]
  }

  /** Sequence numbers have 16 bits, so one request left outstanding while 65535 others come and go takes
      the reply meant for the next one, although never more than two were outstanding. */
  lemma {:induction false} OldRequestTakesReply()
    ensures var t := Run(EMPTY, WrapAround());
            && |t.pending| == 2 && t.pending[1].uid == 0x1_0000 && t.pending[1].callback == Some(8)
            && Next(t, Reply(t.pending[1].seqNum)).departed == t.departed + [Departure(0, Replied(0), Some(7))]
  {
    var first, last := Send(0xFFFF_FFFF, Some(7), 0), Send(1000, Some(8), 0);
    var t := Next(EMPTY, first);
    RunOfOne(EMPTY, first);
    RunOfSum(EMPTY, [first] + Chatter(1, 0xFFFF), [last]);
    RunOfSum(EMPTY, [first], Chatter(1, 0xFFFF));
    assert |t.log| == 1;
    ChatterLeavesOld(t, 0xFFFF);
    var u := Run(t, Chatter(1, 0xFFFF));
    RunOfOne(u, last);
    LastWraps(u);
  }

  lemma {:induction false} LastWraps(u: Table)
    requires u.pending == [Request(0, 0, 0, 0xFFFF_FFFF, Some(7))] && |u.log| == 0x1_0000
    ensures var t := Next(u, Send(1000, Some(8), 0));
            && |t.pending| == 2 && t.pending[1].uid == 0x1_0000 && t.pending[1].callback == Some(8)
            && Next(t, Reply(t.pending[1].seqNum)).departed == t.departed + [Departure(0, Replied(0), Some(7))]
  {
  }

  lemma {:induction false} RunOfOne(t: Table, ev: Event)
    ensures Run(t, [ev]) == Next(t, ev)
  {
    assert [ev][1..] == [];
  }
}
