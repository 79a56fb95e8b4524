/**
 Second-order difference coding of a pressure signal (src/lib/common/differenceSignal.cpp) and its
 transmission in chunks (the report loop of src/apps/bridge/rbrPressureProcessor.cpp), over exact
 arithmetic.
 */
module DifferenceSignal {

  type u32 = x: int | 0 <= x < 0x1_0000_0000

  const CHUNK_SIZE := 30
  const DECIBAR_TO_UBAR := 100000.0

  // ---- differences and their sums ----

  function Diff(s: seq<real>): (d: seq<real>)
    requires |s| > 0
    ensures |d| == |s| - 1
    ensures forall i :: 0 <= i < |d| ==> d[i] == s[i + 1] - s[i]
  {
    seq(|s| - 1, i requires 0 <= i < |s| - 1 => s[i + 1] - s[i])
  }

  function Integrate(first: real, d: seq<real>): (s: seq<real>)
    ensures |s| == |d| + 1 && s[0] == first
    decreases |d|
  {
    if d == [] then [first] else [first] + Integrate(first + d[0], d[1..])
  }

  lemma {:induction false} IntegrateDiff(s: seq<real>)
    requires |s| > 0
    ensures Integrate(s[0], Diff(s)) == s
    decreases |s|
  {
    var rest := s[1..];
    if rest == [] {
      assert s == [s[0]] && Diff(s) == [];
    } else {
      hide Integrate;
      var d := Diff(s);
      assert d[0] == rest[0] - s[0];
      DiffOfTail(s);
      IntegrateDiff(rest);
      IntegrateNext(s[0], d);
      assert s[0] + d[0] == rest[0];
      assert s == [s[0]] + rest;
    }
  }

  lemma {:induction false} DiffOfTail(s: seq<real>)
    requires |s| > 1
    ensures Diff(s)[1..] == Diff(s[1..])
  {
  }

  lemma {:induction false} IntegrateNext(first: real, d: seq<real>)
    requires d != []
    ensures Integrate(first, d) == [first] + Integrate(first + d[0], d[1..])
  {
  }

  lemma {:induction false} IntegrateStep(first: real, d: seq<real>, i: nat)
    requires i < |d|
    ensures Integrate(first, d)[i + 1] - Integrate(first, d)[i] == d[i]
    decreases |d|
  {
    if i == 0 {
    } else {
      IntegrateStep(first + d[0], d[1..], i - 1);
    }
  }

  lemma {:induction false} DiffIntegrate(first: real, d: seq<real>)
    ensures Diff(Integrate(first, d)) == d
  {
    var s := Integrate(first, d);
    forall i | 0 <= i < |d| ensures Diff(s)[i] == d[i] {
      IntegrateStep(first, d, i);
    }
  }

  // ---- the messages ----

  datatype Message = Message(sequenceNum: nat, totalSamples: nat, residual0: real, residual1: real, samples: seq<real>)

  function Chunks(samples: seq<real>, number: nat, total: nat, r0: real, d0: real): seq<Message>
    decreases |samples|
  {
    if samples == [] then []
    else
      var n := if |samples| > CHUNK_SIZE then CHUNK_SIZE else |samples|;
      [Message(number, total, r0, d0, samples[..n])] + Chunks(samples[n..], number + 1, total, r0, d0)
  }

  function Payload(ms: seq<Message>): seq<real> {
    if ms == [] then [] else ms[0].samples + Payload(ms[1..])
  }

  // What is published for a signal of three or more samples.
  function Report(s: seq<real>): seq<Message>
    requires |s| >= 2
  {
    Chunks(Diff(Diff(s)), 0, |s| - 2, s[0], s[1] - s[0])
  }

  // What a receiver makes of the messages, in the order of their sequence numbers.
  function Rebuild(ms: seq<Message>): seq<real>
    requires ms != []
  {
    Integrate(ms[0].residual0, Integrate(ms[0].residual1, Payload(ms)))
  }

  lemma {:induction false} PayloadOfChunks(samples: seq<real>, number: nat, total: nat, r0: real, d0: real)
    ensures Payload(Chunks(samples, number, total, r0, d0)) == samples
    decreases |samples|
  {
    if samples == [] {
    } else {
      var n := if |samples| > CHUNK_SIZE then CHUNK_SIZE else |samples|;
      PayloadOfChunks(samples[n..], number + 1, total, r0, d0);
      var ms := Chunks(samples, number, total, r0, d0);
      assert ms[1..] == Chunks(samples[n..], number + 1, total, r0, d0);
    }
  }

  // Chunk i carries number i, is full unless it is the last, and holds the samples from 30 * i on.
  lemma {:induction false} ChunkAt(samples: seq<real>, number: nat, total: nat, r0: real, d0: real, i: nat)
    requires i < |Chunks(samples, number, total, r0, d0)|
    ensures var ms := Chunks(samples, number, total, r0, d0);
            && 30 * i < |samples|
            && ms[i].sequenceNum == number + i && ms[i].totalSamples == total
            && ms[i].residual0 == r0 && ms[i].residual1 == d0
            && 1 <= |ms[i].samples| <= 30 && 30 * i + |ms[i].samples| <= |samples|
            && ms[i].samples == samples[30 * i..30 * i + |ms[i].samples|]
            && (i < |ms| - 1 ==> |ms[i].samples| == 30)
    decreases i
  {
    var n := if |samples| > CHUNK_SIZE then CHUNK_SIZE else |samples|;
    var rest := Chunks(samples[n..], number + 1, total, r0, d0);
    if i > 0 {
      ChunkAt(samples[n..], number + 1, total, r0, d0, i - 1);
      var m := rest[i - 1];
      assert Chunks(samples, number, total, r0, d0)[i] == m;
      assert n == CHUNK_SIZE;
      SliceOfSlice(samples, n, CHUNK_SIZE * (i - 1), |m.samples|);
    } else if |rest| > 0 {
      assert |samples[n..]| > 0;
    }
  }

  lemma {:induction false} SliceOfSlice(s: seq<real>, n: nat, from: nat, len: nat)
    requires n + from + len <= |s|
    ensures s[n..][from..from + len] == s[n + from..n + from + len]
  {
  }

  /** Lossless: the messages of a signal of three or more samples rebuild it. */
  lemma {:induction false} ReportRebuilds(s: seq<real>)
    requires |s| >= 3
    ensures Report(s) != [] && Rebuild(Report(s)) == s
  {
    var d := Diff(s);
    PayloadOfChunks(Diff(d), 0, |s| - 2, s[0], d[0]);
    ChunkAt(Diff(d), 0, |s| - 2, s[0], d[0], 0);
    IntegrateDiff(d);
    IntegrateDiff(s);
  }

  /** Every message, sample by sample: it carries the signal's first value and first difference, and its
      samples are the second differences from 30 * i on. */
  lemma {:induction false} ReportAt(s: seq<real>, i: nat, j: nat)
    requires |s| >= 3 && i < |Report(s)| && j < |Report(s)[i].samples|
    ensures var m := Report(s)[i];
            && m.sequenceNum == i && m.totalSamples == |s| - 2
            && m.residual0 == s[0] && m.residual1 == s[1] - s[0]
            && 30 * i + j + 2 < |s|
            && m.samples[j] == s[30 * i + j + 2] - 2.0 * s[30 * i + j + 1] + s[30 * i + j]
  {
    hide Chunks;
    ChunkAt(Diff(Diff(s)), 0, |s| - 2, s[0], s[1] - s[0], i);
    assert Report(s)[i].samples[j] == Diff(Diff(s))[30 * i + j];
  }

  /** Nothing is lost on the way either: different signals give different messages. */
  lemma {:induction false} ReportsDiffer(s: seq<real>, t: seq<real>)
    requires |s| >= 3 && |t| >= 3
    ensures Report(s) == Report(t) <==> s == t
  {
    ReportRebuilds(s);
    ReportRebuilds(t);
  }

  // A receiver of the first k messages has the whole signal exactly when their samples add up to the total.
  lemma {:induction false} CompleteIff(s: seq<real>, k: nat)
    requires |s| >= 3 && k <= |Report(s)|
    ensures |Payload(Report(s)[..k])| == |s| - 2 <==> k == |Report(s)|
  {
    var ms, samples := Report(s), Diff(Diff(s));
    hide Diff, Chunks, Payload;
    PayloadOfChunks(samples, 0, |s| - 2, s[0], s[1] - s[0]);
    if k < |ms| { ChunkAt(samples, 0, |s| - 2, s[0], s[1] - s[0], k); }
    AllOrLess(ms, k);
  }

  lemma {:induction false} AllOrLess(ms: seq<Message>, k: nat)
    requires k <= |ms| && (k < |ms| ==> |ms[k].samples| >= 1)
    ensures |Payload(ms[..k])| == |Payload(ms)| <==> k == |ms|
  {
    hide Payload;
    PayloadOfFirst(ms, k);
  }

  lemma {:induction false} PayloadOfFirst(ms: seq<Message>, k: nat)
    requires k <= |ms|
    ensures k == |ms| ==> Payload(ms[..k]) == Payload(ms)
    ensures k < |ms| ==> |Payload(ms[..k])| <= |Payload(ms)| - |ms[k].samples|
  {
    assert ms[..k] + ms[k..] == ms;
    PayloadOfSum(ms[..k], ms[k..]);
    assert k < |ms| ==> ms[k..][0] == ms[k];
    assert k == |ms| ==> ms[..k] == ms;
  }

  lemma {:induction false} PayloadOfSum(a: seq<Message>, b: seq<Message>)
    ensures Payload(a + b) == Payload(a) + Payload(b)
  {
    if a == [] {
      assert a + b == b;
    } else {
      assert (a + b)[1..] == a[1..] + b;
      PayloadOfSum(a[1..], b);
    }
  }

  // ---- the mean ----

  function Sum(s: seq<real>): real {
    if s == [] then 0.0 else Sum(s[..|s| - 1]) + s[|s| - 1]
  }

  function Mean(s: seq<real>): real {
    if s == [] then 0.0 else Sum(s) / |s| as real
  }

  // The sum is that of the parts, so every sample has the same weight.
  lemma {:induction false} SumOfParts(a: seq<real>, b: seq<real>)
    ensures Sum(a + b) == Sum(a) + Sum(b)
    ensures |a| == 1 ==> Sum(a) == a[0]
    decreases |b|
  {
    if |a| == 1 { assert a[..0] == []; }
    if b == [] {
      assert a + b == a;
    } else {
      assert (a + b)[..|a + b| - 1] == a + b[..|b| - 1];
      SumOfParts(a, b[..|b| - 1]);
    }
  }

  lemma {:induction false} SumIsBetween(s: seq<real>, low: real, high: real)
    requires forall i :: 0 <= i < |s| ==> low <= s[i] <= high
    ensures low * |s| as real <= Sum(s) <= high * |s| as real
    decreases |s|
  {
    if s == [] {
    } else {
      var rest := s[..|s| - 1];
      SumIsBetween(rest, low, high);
      assert |s| as real == |rest| as real + 1.0;
      assert low * |s| as real == low * |rest| as real + low;
      assert high * |s| as real == high * |rest| as real + high;
    }
  }

  // The mean lies between any bounds of the samples, so a signal that is deep, or shallow, throughout
  // is taken for one.
  lemma {:induction false} MeanIsBetween(s: seq<real>, low: real, high: real)
    requires s != [] && forall i :: 0 <= i < |s| ==> low <= s[i] <= high
    ensures low <= Mean(s) <= high
  {
    SumIsBetween(s, low, high);
    Quotient(Sum(s), |s| as real, low, high);
  }

  lemma {:induction false} Quotient(sum: real, n: real, low: real, high: real)
    requires n > 0.0 && low * n <= sum <= high * n
    ensures low <= sum / n <= high
  {
    var q := sum / n;
    assert q * n == sum;
    assert q < low ==> q * n < low * n;
    assert q > high ==> q * n > high * n;
  }

  // ---- the signal buffer ----

  class Signal {
    const r: array<real>
    var count: nat

    ghost predicate Valid()
      reads this
    {
      count <= r.Length
    }

    ghost function Samples(): (s: seq<real>)
      requires Valid()
      reads this, r
      ensures |s| == count
    {
      r[..count]
    }

    constructor (capacity: nat)
      requires capacity > 0
      ensures Valid() && fresh(r) && r.Length == capacity && Samples() == []
    {
      r := new real[capacity];
      count := 0;
    }

    method AddSample(sample: real) returns (ok: bool)
      requires Valid()
      modifies this`count, r
      ensures Valid() && ok == (old(count) < r.Length)
      ensures Samples() == if ok then old(Samples()) + [sample] else old(Samples())
    {
      ok := false;
      if count < r.Length {
        r[count], count := sample, count + 1;
        ok := true;
      }
    }

    method Clear()
      requires Valid()
      modifies this`count
      ensures Valid() && Samples() == []
    {
      count := 0;
    }

    /** encodeDifferenceSignalToBuffer: the differences, as many as asked for and there are. */
    method EncodeDifferences(d: array<real>, numSamples: nat) returns (ok: bool, n: nat)
      requires Valid() && d != r && 0 < numSamples <= d.Length
      modifies d
      ensures ok == (count > 0)
      ensures n == if !ok then 0 else if numSamples < count - 1 then numSamples else count - 1
      ensures ok ==> d[..n] == Diff(Samples())[..n]
      ensures d[n..] == old(d[n..])
    {
      if count == 0 { return false, 0; }
      n := if numSamples < count - 1 then numSamples else count - 1;
      for i := 1 to n + 1
        invariant forall k :: 0 <= k < i - 1 ==> d[k] == r[k + 1] - r[k]
        invariant d[i - 1..] == old(d[i - 1..])
      {
        d[i - 1] := r[i] - r[i - 1];
      }
      ok := true;
      assert forall k :: 0 <= k < n ==> d[..n][k] == Diff(Samples())[..n][k];
    }

    method SignalMean() returns (mean: real)
      requires Valid()
      ensures mean == Mean(Samples())
    {
      var sum := 0.0;
      for i := 0 to count
        invariant sum == Sum(r[..i])
      {
        assert r[..i + 1][..i] == r[..i];
        sum := sum + r[i];
      }
      mean := if count > 0 then sum / count as real else 0.0;
    }

    method GetReference() returns (ok: bool, r0: real)
      requires Valid()
      ensures ok == (count > 0) && (ok ==> r0 == Samples()[0])
    {
      if count == 0 { return false, 0.0; }
      return true, r[0];
    }
  }

  /** differenceSignalFromBuffer: the in-place pass leaves what a separate one would have computed. */
  method DifferencesInPlace(d: array<real>, numSamples: nat) returns (n: nat, r0: real)
    requires 0 < numSamples <= d.Length
    modifies d
    ensures n == numSamples - 1 && r0 == old(d[0])
    ensures d[..n] == Diff(old(d[..numSamples]))
    ensures d[n..] == old(d[n..])
  {
    hide Diff;
    r0 := d[0];
    ghost var was, differences := d[..], Diff(d[..numSamples]);
    for i := 1 to numSamples
      invariant forall k :: 0 <= k < i - 1 ==> d[k] == differences[k]
      invariant forall k :: i - 1 <= k < d.Length ==> d[k] == was[k]
    {
      d[i - 1] := d[i] - d[i - 1];
    }
    n := numSamples - 1;
    assert d[n..] == was[n..];
  }

  // ---- sending ----

  /** What became of one attempt to send a chunk. */
  datatype Attempt = Published | NotPublished | NotEncoded

  // How many chunks get out: a chunk that cannot be encoded is tried again, one that cannot be
  // published ends the report.
  function Delivered(attempts: seq<Attempt>): nat {
    if attempts == [] || attempts[0] == NotPublished then 0
    else (if attempts[0] == Published then 1 else 0) + Delivered(attempts[1..])
  }

  // Those published before the first that could not be.
  lemma {:induction false} DeliveredCounts(attempts: seq<Attempt>, k: nat)
    requires k <= |attempts| && NotPublished !in attempts[..k] && (k < |attempts| ==> attempts[k] == NotPublished)
    ensures Delivered(attempts) == multiset(attempts[..k])[Published]
    decreases k
  {
    if k == 0 {
      assert attempts[..0] == [];
    } else {
      assert attempts[..k] == [attempts[0]] + attempts[1..][..k - 1];
      assert attempts[0] in attempts[..k];
      DeliveredCounts(attempts[1..], k - 1);
    }
  }

  // Whether these attempts bring a report of some chunks to its end.
  predicate Ends(chunks: nat, attempts: seq<Attempt>) {
    chunks <= Delivered(attempts) || NotPublished in attempts
  }

  function Least(a: nat, b: nat): nat {
    if a < b then a else b
  }

  /** The report loop, for as many attempts as are given. */
  method SendChunks(d: array<real>, totalSamples: nat, r0: real, d0: real, attempts: seq<Attempt>)
    returns (messages: seq<Message>, ended: bool)
    requires totalSamples <= d.Length
    ensures var all := Chunks(d[..totalSamples], 0, totalSamples, r0, d0);
            && messages == all[..Least(|all|, Delivered(attempts))]
            && ended == Ends(|all|, attempts)
  {
    hide Chunks, Delivered;
    ghost var samples := d[..totalSamples];
    ghost var all := Chunks(samples, 0, totalSamples, r0, d0);
    var samplesToSend, offset, sequenceNum, tries := totalSamples, 0, 0, 0;
    messages, ended := [], totalSamples == 0;
    assert samples[0..] == samples && attempts[0..] == attempts;
    while samplesToSend > 0 && tries < |attempts|
      invariant 0 <= tries <= |attempts| && 0 <= samplesToSend && offset + samplesToSend == totalSamples
      invariant |messages| == sequenceNum && NotPublished !in attempts[..tries]
      invariant ended == (samplesToSend == 0)
      invariant all == messages + Chunks(samples[offset..], sequenceNum, totalSamples, r0, d0)
      invariant Delivered(attempts) == sequenceNum + Delivered(attempts[tries..])
    {
      var now := if samplesToSend > CHUNK_SIZE then CHUNK_SIZE else samplesToSend;
      var attempt := attempts[tries];
      NextAttempt(attempts[tries..]);
      NextChunk(samples[offset..], sequenceNum, totalSamples, r0, d0);
      assert attempts[tries..][1..] == attempts[tries + 1..];
      if attempt == Published {
        assert samples[offset..][now..] == samples[offset + now..];
        messages := messages + [Message(sequenceNum, totalSamples, r0, d0, d[offset..offset + now])];
        assert messages[sequenceNum].samples == samples[offset..][..now];
        offset, samplesToSend, sequenceNum := offset + now, samplesToSend - now, sequenceNum + 1;
        ended := samplesToSend == 0;
      } else if attempt == NotPublished {
        ended := true;
        break;
      }
      assert attempts[..tries + 1] == attempts[..tries] + [attempt];
      tries := tries + 1;
    }
    assert tries == |attempts| ==> attempts[..tries] == attempts;
    NoMore(attempts[tries..], samples[offset..], sequenceNum, totalSamples, r0, d0);
  }

  lemma {:induction false} NextAttempt(attempts: seq<Attempt>)
    requires attempts != []
    ensures Delivered(attempts) == if attempts[0] == NotPublished then 0
                                   else (if attempts[0] == Published then 1 else 0) + Delivered(attempts[1..])
  {
  }

  lemma {:induction false} NoMore(attempts: seq<Attempt>, samples: seq<real>, number: nat, total: nat, r0: real,
      d0: real)
    ensures attempts == [] ==> Delivered(attempts) == 0
    ensures samples == [] <==> Chunks(samples, number, total, r0, d0) == []
  {
  }

  lemma {:induction false} NextChunk(samples: seq<real>, number: nat, total: nat, r0: real, d0: real)
    requires samples != []
    ensures (
      var n := if |samples| > CHUNK_SIZE then CHUNK_SIZE else |samples|;
      Chunks(samples, number, total, r0, d0)
        == [Message(number, total, r0, d0, samples[..n])] + Chunks(samples[n..], number + 1, total, r0, d0))
  {
  }

  // ---- the end of the timer ----

  /** What comes of it: an assertion that fails stops the program, and a report in the making is
      still waiting for its next attempt. */
  datatype Outcome =
    | LimitReached
    | BelowThreshold
    | NoSignal
    | AssertFails
    | Sent(messages: seq<Message>)
    | Sending(messages: seq<Message>)

  function Ending(s: seq<real>, sent: nat, limit: nat, threshold: real, attempts: seq<Attempt>): Outcome {
    if sent >= limit then LimitReached
    else if Mean(s) * DECIBAR_TO_UBAR < threshold then BelowThreshold
    else if s == [] then NoSignal
    else if |s| == 1 then AssertFails
    else
      var report := Report(s);
      var messages := report[..Least(|report|, Delivered(attempts))];
      if Ends(|report|, attempts) then Sent(messages) else Sending(messages)
  }

  /** What becomes of a signal, in the order in which it is decided: the limit, the mean of its samples in
      millionths of a bar, their number, and the attempts. */
  lemma {:induction false} EndingIs(s: seq<real>, sent: nat, limit: nat, threshold: real, attempts: seq<Attempt>)
    ensures var outcome := Ending(s, sent, limit, threshold, attempts);
            && (outcome.LimitReached? <==> limit <= sent)
            && (outcome.BelowThreshold? <==>
                  sent < limit && if s == [] then threshold > 0.0 else Sum(s) * 100000.0 < threshold * |s| as real)
            && (outcome.NoSignal? ==> s == []) && (outcome.AssertFails? ==> |s| == 1)
            && (outcome.Sent? || outcome.Sending? ==> |s| >= 2)
            && (outcome.Sending? ==> NotPublished !in attempts && Delivered(attempts) < |Report(s)|)
            && (outcome.Sent? ==> NotPublished in attempts || Delivered(attempts) >= |Report(s)|)
  {
    hide Report, Delivered, Sum;
    if s != [] { Scaled(Sum(s), |s| as real, threshold); }
  }

  lemma {:induction false} Scaled(sum: real, n: real, threshold: real)
    requires n > 0.0
    ensures sum / n * 100000.0 < threshold <==> sum * 100000.0 < threshold * n
  {
    var q := sum / n;
    assert q * n == sum;
    assert q * 100000.0 < threshold ==> q * 100000.0 * n < threshold * n;
    assert q * 100000.0 >= threshold ==> q * 100000.0 * n >= threshold * n;
    assert q * 100000.0 * n == sum * 100000.0;
  }

  /** A report that has ended, and so is counted, is whole exactly if there were three samples or more and
      every chunk was published; and nothing at all was published exactly if there were two, or the first
      publication failed. */
  lemma {:induction false} CountedReportIsWholeIff(s: seq<real>, sent: nat, limit: nat, threshold: real,
      attempts: seq<Attempt>)
    requires Ending(s, sent, limit, threshold, attempts).Sent?
    ensures var messages := Ending(s, sent, limit, threshold, attempts).messages;
            && |s| >= 2
            && (messages != [] && Rebuild(messages) == s <==> |s| >= 3 && |Report(s)| <= Delivered(attempts))
            && (messages == [] <==> |s| == 2 || Delivered(attempts) == 0)
  {
    hide Rebuild, Mean, Delivered;
    var report, messages := Report(s), Ending(s, sent, limit, threshold, attempts).messages;
    if |s| == 2 {
      assert report == [];
    } else {
      ReportRebuilds(s);
      if messages != [] && messages != report { PartIsNotTheSignal(s, |messages|); }
    }
  }

  lemma {:induction false} PartIsNotTheSignal(s: seq<real>, k: nat)
    requires |s| >= 3 && 0 < k < |Report(s)|
    ensures Rebuild(Report(s)[..k]) != s
  {
    hide Diff, Chunks, Payload;
    var ms, samples := Report(s), Diff(Diff(s));
    PayloadOfChunks(samples, 0, |s| - 2, s[0], s[1] - s[0]);
    PayloadOfFirst(ms, k);
    ChunkAt(samples, 0, |s| - 2, s[0], s[1] - s[0], k);
  }

  // Three samples whose publication failed, and two samples: both are counted with nothing published.
  lemma {:induction false} CountedUnpublished(threshold: real)
    requires threshold <= 0.0
    ensures Ending([0.0, 1.0, 2.0], 0, 1, threshold, [NotPublished]) == Sent([])
    ensures Ending([0.0, 1.0], 0, 1, threshold, []) == Sent([])
  {
    var three, two: seq<real> := [0.0, 1.0, 2.0], [0.0, 1.0];
    MeanIsBetween(three, 0.0, 2.0);
    MeanIsBetween(two, 0.0, 1.0);
    assert Report(two) == [];
  }

  /** One end of the timer: the samples gathered, and what becomes of the attempts to send them. */
  datatype Round = Round(samples: seq<real>, attempts: seq<Attempt>)

  function Outcomes(rounds: seq<Round>, sent: nat, limit: nat, threshold: real): seq<Outcome>
    decreases |rounds|
  {
    if rounds == [] then []
    else
      var outcome := Ending(rounds[0].samples, sent, limit, threshold, rounds[0].attempts);
      [outcome] + Outcomes(rounds[1..], sent + (if outcome.Sent? then 1 else 0), limit, threshold)
  }

  function Reports(outcomes: seq<Outcome>): nat {
    if outcomes == [] then 0 else (if outcomes[0].Sent? then 1 else 0) + Reports(outcomes[1..])
  }

  /** Over every run, restarts included, no more reports are counted than the limit leaves, whole or not. */
  lemma {:induction false} LimitIsKept(rounds: seq<Round>, sent: nat, limit: nat, threshold: real)
    requires sent <= limit
    ensures var outcomes := Outcomes(rounds, sent, limit, threshold);
            |outcomes| == |rounds| && sent + Reports(outcomes) <= limit
    decreases |rounds|
  {
    if rounds == [] {
    } else {
      hide Ending;
      var first := Ending(rounds[0].samples, sent, limit, threshold, rounds[0].attempts);
      LimitIsReached(rounds[0].samples, sent, limit, threshold, rounds[0].attempts);
      var next := sent + if first.Sent? then 1 else 0;
      LimitIsKept(rounds[1..], next, limit, threshold);
      ReportsNext(first, Outcomes(rounds[1..], next, limit, threshold));
    }
  }

  /** And no signal is refused for the limit until as many were counted, whole or not. */
  lemma {:induction false} RefusedIff(rounds: seq<Round>, sent: nat, limit: nat, threshold: real, i: nat)
    requires i < |Outcomes(rounds, sent, limit, threshold)| && sent <= limit
    ensures var outcomes := Outcomes(rounds, sent, limit, threshold);
            outcomes[i] == LimitReached <==> sent + Reports(outcomes[..i]) == limit
    decreases i
  {
    hide Ending;
    var first := Ending(rounds[0].samples, sent, limit, threshold, rounds[0].attempts);
    LimitIsReached(rounds[0].samples, sent, limit, threshold, rounds[0].attempts);
    var outcomes := Outcomes(rounds, sent, limit, threshold);
    if i == 0 {
      assert outcomes[..0] == [];
    } else {
      var next := sent + if first.Sent? then 1 else 0;
      RefusedIff(rounds[1..], next, limit, threshold, i - 1);
      var rest := Outcomes(rounds[1..], next, limit, threshold);
      assert outcomes[..i] == [first] + rest[..i - 1];
      ReportsNext(first, rest[..i - 1]);
    }
  }

  lemma {:induction false} ReportsNext(first: Outcome, rest: seq<Outcome>)
    ensures Reports([first] + rest) == (if first.Sent? then 1 else 0) + Reports(rest)
  {
    assert ([first] + rest)[1..] == rest;
  }

  lemma {:induction false} LimitIsReached(s: seq<real>, sent: nat, limit: nat, threshold: real, attempts: seq<Attempt>)
    ensures Ending(s, sent, limit, threshold, attempts) == LimitReached <==> sent >= limit
  {
  }

  class PressureProcessor {
    const signal: Signal
    const maxRawReports: u32
    const threshold: real
    var reportsSent: u32

    constructor (capacity: nat, maxRawReports: u32, threshold: real, reportsSent: u32)
      requires capacity > 0
      ensures fresh(signal) && fresh(signal.r) && signal.Valid() && signal.r.Length == capacity
        && signal.Samples() == []
      ensures this.maxRawReports == maxRawReports && this.threshold == threshold && this.reportsSent == reportsSent
    {
      signal := new Signal(capacity);
      this.maxRawReports, this.threshold, this.reportsSent := maxRawReports, threshold, reportsSent;
    }

    /** What runTask() does when the timer has ended. Whatever is decided, the signal starts anew. */
    method TimerEnds(d: array<real>, attempts: seq<Attempt>) returns (outcome: Outcome)
      requires signal.Valid() && d != signal.r && d.Length == signal.r.Length > 0
      modifies this`reportsSent, signal`count, d
      ensures signal.Valid()
      ensures outcome == Ending(old(signal.Samples()), old(reportsSent), maxRawReports, threshold, attempts)
      ensures reportsSent == old(reportsSent) + if outcome.Sent? then 1 else 0
      ensures signal.Samples() == if outcome.AssertFails? || outcome.Sending? then old(signal.Samples()) else []
    {
      hide Mean, Report, Delivered, Ends;
      if reportsSent >= maxRawReports {
        outcome := LimitReached;
      } else {
        var mean := signal.SignalMean();
        if mean * DECIBAR_TO_UBAR < threshold {
          outcome := BelowThreshold;
        } else {
          outcome := SendRaw(signal, d, attempts);
          if outcome.AssertFails? || outcome.Sending? { return; }
          if outcome.Sent? { reportsSent := reportsSent + 1; }
        }
      }
      signal.Clear();
    }
  }

  /** The report itself: nothing without a signal; with a single sample the second difference pass is
      called on an empty buffer, which its assertion forbids. */
  method SendRaw(signal: Signal, d: array<real>, attempts: seq<Attempt>) returns (outcome: Outcome)
    requires signal.Valid() && d != signal.r && d.Length == signal.r.Length > 0
    modifies d
    ensures signal.count == 0 <==> outcome == NoSignal
    ensures signal.count == 1 <==> outcome == AssertFails
    ensures signal.count >= 2 ==>
      var report := Report(signal.Samples());
      var messages := report[..Least(|report|, Delivered(attempts))];
      outcome == if Ends(|report|, attempts) then Sent(messages) else Sending(messages)
  {
    hide Diff, Chunks, Delivered, Ends;
    var ok, totalSamples := signal.EncodeDifferences(d, d.Length);
    if !ok { return NoSignal; }
    var _, r0 := signal.GetReference();
    if totalSamples == 0 { return AssertFails; }
    ghost var s := signal.Samples();
    ghost var first := Diff(s);
    assert first[..totalSamples] == first;
    assert d[..totalSamples] == first;
    var d0;
    totalSamples, d0 := DifferencesInPlace(d, totalSamples);
    assert signal.Samples() == s && d0 == first[0];
    assert d[..totalSamples] == Diff(first);
    var messages, ended := SendChunks(d, totalSamples, r0, d0, attempts);
    outcome := if ended then Sent(messages) else Sending(messages);
  }
}
