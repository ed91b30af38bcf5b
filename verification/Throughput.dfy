/** The throughput driver: it keeps up to a fixed number of requests in flight until the measurement
    ends, polls them to a terminal state, and accounts for every request once. */
module Throughput {
  import opened Prelude
  import opened MapSum

  datatype Phase = Warmup | Measurement | PostMeasurement | Timeout

  datatype Request = Request(id: string, sequence: nat, startedAt: int)

  /** One sample per request; `phase` is empty until the request is over. */
  datatype Sample = Sample(request: Request, terminal: bool, completed: bool, rolledBack: bool, timedOut: bool,
                           observedAt: Option<int>, phase: Option<Phase>)

  datatype Status = Status(terminal: bool, completed: bool, rolledBack: bool)

  datatype Times = Times(start: int, measureFrom: int, measureTo: int, drainTo: int)

  /** The clock's n-th reading, the request the adapter returns for a sequence number, and the n-th
      answer to a poll.  Ids are fresh, as `numberOf` shows; the clock passes the drain deadline for
      good at reading `horizon`. */
  datatype World = World(clock: nat -> int, submit: nat -> Request, poll: (string, nat) -> Status,
                         numberOf: string -> nat, horizon: nat)

  ghost predicate Sane(w: World, t: Times) {
    && (forall n :: w.numberOf(w.submit(n).id) == n)
    && (forall n | n >= w.horizon :: w.clock(n) > t.drainTo)
    && t.start <= t.measureFrom < t.measureTo <= t.drainTo
  }

  function PhaseFor(observedAt: int, t: Times): Phase {
    if observedAt < t.measureFrom then Warmup
    else if observedAt <= t.measureTo then Measurement
    else if observedAt >= t.start then PostMeasurement
    else Warmup
  }

  /** The last two branches never disagree: after the measurement is after the start. */
  lemma PhaseIsByInterval(observedAt: int, t: Times)
    requires t.start <= t.measureFrom < t.measureTo
    ensures PhaseFor(observedAt, t) == Warmup <==> observedAt < t.measureFrom
    ensures PhaseFor(observedAt, t) == Measurement <==> t.measureFrom <= observedAt <= t.measureTo
    ensures PhaseFor(observedAt, t) == PostMeasurement <==> t.measureTo < observedAt
  {
  }

  /** Exactly one of terminal and timed out; a phase of the drive if terminal, `Timeout` otherwise. */
  predicate Closed(s: Sample) {
    && (s.terminal <==> !s.timedOut)
    && s.phase.Some? && (s.phase.value == Timeout <==> s.timedOut)
    && (s.timedOut ==> !s.completed && !s.rolledBack)
  }

  // ---------------------------------------------------------------- the two tables

  function Opened(request: Request): Sample { Sample(request, false, false, false, false, None, None) }

  function Finished(s: Sample, status: Status, at: int, t: Times): Sample {
    s.(terminal := true, completed := status.completed, rolledBack := status.rolledBack, timedOut := false,
       observedAt := Some(at), phase := Some(PhaseFor(at, t)))
  }

  function TimedOut(s: Sample, at: int): Sample {
    s.(terminal := false, completed := false, rolledBack := false, timedOut := true, observedAt := Some(at), phase := Some(Timeout))
  }

  /** The two tables, how far the sequence, the polls and the clock have come, and a record of which
      poll found a request terminal and which clock reading was taken then. */
  datatype Tables = Tables(samples: map<string, Sample>, inFlight: map<string, Request>, next: nat,
                           polls: nat, ticks: nat, trace: map<string, (nat, nat)>)

  /** The sample of a terminal request is what the poll that found it so and the reading then say. */
  ghost predicate SeenTerminal(w: World, t: Times, d: Tables, id: string, s: Sample) {
    && id in d.trace && d.trace[id].0 < d.polls && d.trace[id].1 < d.ticks
    && w.poll(id, d.trace[id].0).terminal
    && s == Finished(Opened(s.request), w.poll(id, d.trace[id].0), w.clock(d.trace[id].1), t)
  }

  /** The bookkeeping of one id: it is in flight exactly if its sample is not terminal; its sample
      belongs to an earlier sequence number and is open or what was seen. */
  ghost predicate Row(w: World, t: Times, d: Tables, id: string) {
    && (id in d.inFlight <==> id in d.samples && !d.samples[id].terminal)
    && (id in d.samples ==>
          && w.numberOf(id) < d.next
          && d.samples[id].request == w.submit(w.numberOf(id))
          && if d.samples[id].terminal then SeenTerminal(w, t, d, id, d.samples[id])
             else d.samples[id] == Opened(d.samples[id].request))
  }

  ghost predicate Good(w: World, t: Times, d: Tables) {
    && Sane(w, t) && |d.samples| + 1 == d.next
    && forall id :: Row(w, t, d, id)
  }

  /** The bookkeeping of one id after the final pass, which ended at time `end`. */
  ghost predicate FinalRow(w: World, t: Times, d: Tables, end: int, id: string) {
    && (id in d.inFlight <==> id in d.samples && d.samples[id].timedOut)
    && (id in d.samples ==>
          && d.samples[id].request == w.submit(w.numberOf(id)) && Closed(d.samples[id])
          && (d.samples[id].timedOut ==> d.samples[id].observedAt == Some(end))
          && (d.samples[id].terminal ==> SeenTerminal(w, t, d, id, d.samples[id])))
  }

  ghost predicate Final(w: World, t: Times, d: Tables, end: int) {
    |d.samples| + 1 == d.next && forall id :: FinalRow(w, t, d, end, id)
  }

  /** A request in flight has nothing recorded but itself. */
  lemma OpenSampleIsBlank(w: World, t: Times, d: Tables, id: string)
    requires Good(w, t, d) && id in d.inFlight
    ensures id in d.samples
    ensures var s := d.samples[id];
            && s.request == w.submit(w.numberOf(id))
            && !s.terminal && !s.completed && !s.rolledBack && !s.timedOut && s.observedAt == None && s.phase == None
  {
    assert Row(w, t, d, id);
  }

  /** A terminal request is recorded as the poll that found it so answered, at the time of the reading
      taken then, in the phase of the interval that time lies in. */
  lemma TerminalSampleIsThePoll(w: World, t: Times, d: Tables, end: int, id: string)
    requires Final(w, t, d, end) && id in d.samples && d.samples[id].terminal
    ensures id in d.trace
    ensures var s := d.samples[id];
            var (answer, at) := (w.poll(id, d.trace[id].0), w.clock(d.trace[id].1));
            && s.request == w.submit(w.numberOf(id)) && !s.timedOut
            && answer.terminal && s.completed == answer.completed && s.rolledBack == answer.rolledBack
            && s.observedAt == Some(at)
            && s.phase == Some(if at < t.measureFrom then Warmup else if at <= t.measureTo then Measurement
                               else if at >= t.start then PostMeasurement else Warmup)
  {
    assert FinalRow(w, t, d, end, id);
  }

  /** Some clock reading of the given range is at or past a moment. */
  ghost predicate ReadAtLeast(w: World, from: nat, to: nat, ms: int) {
    exists n | from <= n < to :: w.clock(n) >= ms
  }

  /** Why a drive may end: a reading says that the measurement is over, and if requests are still open,
      one is past the drain deadline. */
  ghost predicate MayEnd(w: World, t: Times, from: nat, to: nat, open: nat) {
    && ReadAtLeast(w, from, to, t.measureTo)
    && (open > 0 ==> ReadAtLeast(w, from, to, t.drainTo + 1))
  }

  lemma EarlierStart(w: World, t: Times, from: nat, mid: nat, to: nat, open: nat)
    requires from <= mid && MayEnd(w, t, mid, to, open)
    ensures MayEnd(w, t, from, to, open)
  {
  }

  lemma LastReading(w: World, t: Times, from: nat, to: nat, open: nat)
    requires from < to && t.measureTo <= t.drainTo
    requires w.clock(to - 1) > t.drainTo || (w.clock(to - 1) >= t.measureTo && open == 0)
    ensures MayEnd(w, t, from, to, open)
  {
  }

  lemma OneMore<T>(m: map<string, T>, k: string, v: T)
    requires k !in m
    ensures |m[k := v]| == |m| + 1
  {
    assert m[k := v].Keys == m.Keys + {k};
  }

  lemma OneLess<T>(m: map<string, T>, k: string)
    requires k in m
    ensures |m - {k}| == |m| - 1
  {
    assert (m - {k}).Keys == m.Keys - {k};
  }

  /** More polls and readings change nothing that was recorded. */
  lemma TimePasses(w: World, t: Times, d: Tables, polls: nat, ticks: nat)
    requires Good(w, t, d) && polls >= d.polls && ticks >= d.ticks
    ensures Good(w, t, d.(polls := polls, ticks := ticks))
  {
    forall id ensures Row(w, t, d.(polls := polls, ticks := ticks), id) {
      assert Row(w, t, d, id);
    }
  }

  lemma SubmitKeeps(w: World, t: Times, d: Tables)
    requires Good(w, t, d)
    ensures var request := w.submit(d.next);
            && request.id !in d.samples && request.id !in d.inFlight
            && Good(w, t, d.(samples := d.samples[request.id := Opened(request)],
                             inFlight := d.inFlight[request.id := request], next := d.next + 1))
            && |d.inFlight[request.id := request]| == |d.inFlight| + 1
  {
    var request := w.submit(d.next);
    var d' := d.(samples := d.samples[request.id := Opened(request)],
                 inFlight := d.inFlight[request.id := request], next := d.next + 1);
    assert w.numberOf(request.id) == d.next;
    assert Row(w, t, d, request.id);
    OneMore(d.samples, request.id, Opened(request));
    OneMore(d.inFlight, request.id, request);
    forall id ensures Row(w, t, d', id) {
      assert Row(w, t, d, id);
    }
  }

  lemma FinishKeeps(w: World, t: Times, d: Tables, id: string)
    requires Good(w, t, d) && id in d.inFlight && w.poll(id, d.polls).terminal
    ensures id in d.samples && |d.inFlight - {id}| == |d.inFlight| - 1
    ensures Good(w, t, AfterPoll(w, t, d, id))
  {
    assert Row(w, t, d, id);
    OneLess(d.inFlight, id);
    var d' := AfterPoll(w, t, d, id);
    forall i ensures Row(w, t, d', i) {
      assert Row(w, t, d, i);
    }
  }

  /** The tables after a poll of `id` at the next reading of the clock. */
  ghost function AfterPoll(w: World, t: Times, d: Tables, id: string): Tables
    requires id in d.samples
  {
    var status := w.poll(id, d.polls);
    if status.terminal then
      d.(samples := d.samples[id := Finished(d.samples[id], status, w.clock(d.ticks), t)], inFlight := d.inFlight - {id},
         polls := d.polls + 1, ticks := d.ticks + 1, trace := d.trace[id := (d.polls, d.ticks)])
    else d.(polls := d.polls + 1)
  }

  /** All requests in flight time out at once; the others stay as they are. */
  ghost predicate TimesOutRest(d: Tables, d': Tables, at: int) {
    && d' == d.(samples := d'.samples) && d'.samples.Keys == d.samples.Keys && |d'.samples| == |d.samples|
    && forall id :: RestTimedOut(d, d', at, id)
  }

  ghost predicate RestTimedOut(d: Tables, d': Tables, at: int, id: string) {
    id in d.samples && id in d'.samples ==>
      d'.samples[id] == if id in d.inFlight then TimedOut(d.samples[id], at) else d.samples[id]
  }

  lemma TimingOutIsFinal(w: World, t: Times, d: Tables, d': Tables, at: int)
    requires Good(w, t, d) && TimesOutRest(d, d', at)
    ensures Final(w, t, d', at)
  {
    forall id ensures FinalRow(w, t, d', at, id) {
      assert Row(w, t, d, id) && RestTimedOut(d, d', at, id);
    }
  }

  class Driver {
    const w: World
    const t: Times
    const maxInFlight: nat
    var samples: map<string, Sample>
    var inFlight: map<string, Request>
    var nextSequence: nat
    var ticks: nat
    var polls: nat
    ghost var peak: nat
    ghost var trace: map<string, (nat, nat)>

    ghost function Contents(): Tables
      reads this
    {
      Tables(samples, inFlight, nextSequence, polls, ticks, trace)
    }

    /** The bookkeeping that holds until the final pass; `peak` is the largest number ever in flight. */
    ghost predicate Valid()
      reads this
    {
      |inFlight| <= peak <= maxInFlight && Good(w, t, Contents())
    }

    constructor (w: World, t: Times, maxInFlight: nat)
      requires Sane(w, t)
      ensures Valid() && samples == map[] && this.w == w && this.t == t && this.maxInFlight == maxInFlight
    {
      this.w, this.t, this.maxInFlight := w, t, maxInFlight;
      samples, inFlight, nextSequence, ticks, polls := map[], map[], 1, 0, 0;
      peak, trace := 0, map[];
    }

    method Now() returns (ms: int)
      requires Valid()
      modifies this`ticks
      ensures Valid() && ticks == old(ticks) + 1 && ms == w.clock(old(ticks))
    {
      TimePasses(w, t, Contents(), polls, ticks + 1);
      ms := Read();
    }

    method Read() returns (ms: int)
      modifies this`ticks
      ensures ticks == old(ticks) + 1 && ms == w.clock(old(ticks))
    {
      ms := w.clock(ticks);
      ticks := ticks + 1;
    }

    method SubmitOne()
      requires Valid() && |inFlight| < maxInFlight
      modifies this`samples, this`inFlight, this`nextSequence, this`peak
      ensures Valid() && |inFlight| == old(|inFlight|) + 1 && nextSequence == old(nextSequence) + 1
      ensures peak == if |inFlight| > old(peak) then |inFlight| else old(peak)
      ensures var request := w.submit(old(nextSequence));
              request.id !in old(samples) && samples == old(samples)[request.id := Opened(request)]
    {
      SubmitKeeps(w, t, Contents());
      var request := w.submit(nextSequence);
      nextSequence := nextSequence + 1;
      samples := samples[request.id := Opened(request)];
      inFlight := inFlight[request.id := request];
      peak := if |inFlight| > peak then |inFlight| else peak;
    }

    /** The pipeline is full afterwards, unless a reading says that the measurement is over. */
    method FillPipeline(now: int)
      requires Valid()
      modifies this`samples, this`inFlight, this`nextSequence, this`ticks, this`peak
      ensures Valid() && ticks >= old(ticks) && peak >= old(peak)
      ensures old(samples.Keys) <= samples.Keys && nextSequence >= old(nextSequence)
      ensures |inFlight| == maxInFlight || now >= t.measureTo || ReadAtLeast(w, old(ticks), ticks, t.measureTo)
      ensures now < t.measureTo && old(|inFlight|) < maxInFlight ==> nextSequence > old(nextSequence)
    {
      var nowMs := now;
      while nowMs < t.measureTo && |inFlight| < maxInFlight
        invariant Valid() && ticks >= old(ticks) && peak >= old(peak)
        invariant old(samples.Keys) <= samples.Keys && nextSequence >= old(nextSequence)
        invariant nowMs == now || (ticks > old(ticks) && nowMs == w.clock(ticks - 1))
        invariant nextSequence > old(nextSequence) || (nowMs == now && |inFlight| == old(|inFlight|))
        decreases maxInFlight - |inFlight|
      {
        SubmitOne();
        nowMs := Now();
      }
    }

    /** One request of the snapshot: polled, and closed if its status is terminal. */
    method PollOne(id: string)
      requires Valid() && id in inFlight && id in samples
      modifies this`samples, this`inFlight, this`ticks, this`polls, this`trace
      ensures Valid() && Contents() == AfterPoll(w, t, old(Contents()), id)
    {
      ghost var d := Contents();
      var status := w.poll(id, polls);
      if status.terminal {
        FinishKeeps(w, t, d, id);
        var observedAt := Read();
        samples := samples[id := Finished(samples[id], status, observedAt, t)];
        inFlight := inFlight - {id};
        trace := trace[id := (polls, ticks - 1)];
      } else {
        TimePasses(w, t, d, polls + 1, ticks);
      }
      polls := polls + 1;
    }

    /** Polls a snapshot of the requests in flight, one after the other. */
    method PollAll()
      requires Valid()
      modifies this`samples, this`inFlight, this`ticks, this`polls, this`trace
      ensures Valid() && ticks >= old(ticks) && samples.Keys == old(samples.Keys)
    {
      var requests := inFlight.Keys;
      while requests != {}
        invariant Valid() && ticks >= old(ticks) && samples.Keys == old(samples.Keys)
        invariant requests <= inFlight.Keys
        decreases |requests|
      {
        var id :| id in requests;
        assert Row(w, t, Contents(), id);
        PollOne(id);
        requests := requests - {id};
      }
    }

    /** The final pass: what is still in flight has timed out, everything else stays as it is. */
    method TimeOutRest(endMs: int)
      modifies this`samples
      requires inFlight.Keys <= samples.Keys
      ensures TimesOutRest(old(Contents()), Contents(), endMs)
    {
      var rest := inFlight.Keys;
      ghost var was := Contents();
      while rest != {}
        invariant rest <= inFlight.Keys && samples.Keys == was.samples.Keys && |samples| == |was.samples|
        invariant forall id | id in samples ::
                    samples[id] == if id in inFlight && id !in rest then TimedOut(was.samples[id], endMs) else was.samples[id]
        decreases |rest|
      {
        var id :| id in rest;
        samples := samples[id := TimedOut(samples[id], endMs)];
        rest := rest - {id};
      }
    }

    /** One round of polls, and new requests in the place of those that are over. */
    method Round()
      requires Valid()
      modifies this
      ensures Valid() && ticks > old(ticks)
      ensures old(samples.Keys) <= samples.Keys && nextSequence >= old(nextSequence)
    {
      PollAll();
      var now := Now();
      FillPipeline(now);
    }

    /** The condition of the polling loop and the check of the drain deadline. */
    method GoOn() returns (on: bool)
      requires Valid()
      modifies this`ticks
      ensures Valid() && ticks > old(ticks)
      ensures if on then old(ticks) < w.horizon else MayEnd(w, t, old(ticks), ticks, |inFlight|)
    {
      var check := Now();
      if !(check < t.measureTo || |inFlight| > 0) {
        LastReading(w, t, old(ticks), ticks, |inFlight|);
        return false;
      }
      var nowMs := Now();
      if nowMs > t.drainTo {
        LastReading(w, t, old(ticks), ticks, |inFlight|);
        return false;
      }
      return true;
    }

    /** One turn of the polling loop; it says whether that was the last one. */
    method Turn() returns (over: bool)
      requires Valid()
      modifies this
      ensures Valid() && ticks > old(ticks)
      ensures old(samples.Keys) <= samples.Keys && nextSequence >= old(nextSequence)
      ensures if over then MayEnd(w, t, old(ticks), ticks, |inFlight|) else old(ticks) < w.horizon
    {
      var on := GoOn();
      if !on { return true; }
      Round();
      ghost var from := ticks;
      over := AllDone();
      if over {
        EarlierStart(w, t, old(ticks), from, ticks, |inFlight|);
      }
    }

    /** Nothing is in flight any more and the measurement is over. */
    method AllDone() returns (done: bool)
      requires Valid()
      modifies this`ticks
      ensures Valid() && ticks > old(ticks)
      ensures done ==> MayEnd(w, t, old(ticks), ticks, |inFlight|)
    {
      var after := Now();
      done := after >= t.measureTo && |inFlight| == 0;
      if done {
        LastReading(w, t, old(ticks), ticks, |inFlight|);
      }
    }

    /** The polling loop.  It goes on until the measurement is over, and gives up on a request in flight
        only when a reading is past the drain deadline. */
    method PollUntilDone()
      requires Valid()
      modifies this
      ensures Valid()
      ensures old(samples.Keys) <= samples.Keys && nextSequence >= old(nextSequence) && ticks >= old(ticks)
      ensures MayEnd(w, t, old(ticks), ticks, |inFlight|)
    {
      var over := false;
      while !over
        invariant Valid() && ticks >= old(ticks)
        invariant old(samples.Keys) <= samples.Keys && nextSequence >= old(nextSequence)
        invariant over ==> MayEnd(w, t, old(ticks), ticks, |inFlight|)
        decreases !over, if ticks < w.horizon then w.horizon - ticks else 0
      {
        ghost var from := ticks;
        over := Turn();
        if over {
          EarlierStart(w, t, old(ticks), from, ticks, |inFlight|);
        }
      }
    }

    /** MAIN RESULT.  The whole drive: never more requests in flight than the limit; it goes on until a
        reading says that the measurement is over; at the end every request is exactly one of
        terminal, with the status and the time of the poll that found it so, and timed out, which
        happens only after a reading past the drain deadline. */
    method Drive()
      requires Valid()
      modifies this
      ensures |inFlight| <= peak <= maxInFlight && ticks > 0 && Final(w, t, Contents(), w.clock(ticks - 1))
      ensures old(samples.Keys) <= samples.Keys && old(ticks) <= ticks
      ensures MayEnd(w, t, old(ticks), ticks, |inFlight|)
      ensures w.clock(old(ticks)) < t.measureTo && old(|inFlight|) < maxInFlight ==> nextSequence > old(nextSequence)
    {
      var now := Now();
      FillPipeline(now);
      PollUntilDone();
      var endMs := Now();
      ghost var d := Contents();
      forall id | id in inFlight ensures id in samples {
        assert Row(w, t, d, id);
      }
      TimeOutRest(endMs);
      TimingOutIsFinal(w, t, d, Contents(), endMs);
    }

    /** The samples in some order, each exactly once. */
    method Values() returns (values: seq<Sample>, ghost ids: seq<string>)
      ensures Enumerates(ids, samples) && values == ValuesAt(samples, ids)
    {
      values, ids := [], [];
      var rest := samples.Keys;
      while rest != {}
        invariant rest <= samples.Keys
        invariant forall id :: id in ids <==> id in samples && id !in rest
        invariant forall i, j | 0 <= i < j < |ids| :: ids[i] != ids[j]
        invariant values == ValuesAt(samples, ids)
        decreases |rest|
      {
        var id :| id in rest;
        values, ids := values + [samples[id]], ids + [id];
        rest := rest - {id};
      }
    }

    /** MAIN RESULT.  The drive and its summary: every submitted request has one sample, the figures count
        the samples the drive leaves, the three kinds of completion add up to all of them, and
        terminal and timed-out requests to all requests.  A completion counts for the measurement
        exactly if the time it was observed at lies in the measurement interval. */
    method Report() returns (r: Summary)
      requires Valid()
      modifies this
      ensures |inFlight| <= peak <= maxInFlight && ticks > 0 && Final(w, t, Contents(), w.clock(ticks - 1))
      ensures r == SummaryOf(samples) && AddsUp(samples, r) && r.submitted + 1 == nextSequence
      ensures r.measurement == CountIn(samples, CompletedBetween(t.measureFrom, t.measureTo))
      ensures r.warmup == CountIn(samples, CompletedBefore(t.measureFrom))
      ensures r.postMeasurement == CountIn(samples, CompletedAfter(t.measureTo))
      ensures r.completed == Polled(w, Contents(), SaysCompleted)
      ensures r.rolledBack == Polled(w, Contents(), SaysRolledBack)
      ensures MayEnd(w, t, old(ticks), ticks, |inFlight|)
    {
      Drive();
      CompletionsByTime(w, t, Contents(), w.clock(ticks - 1));
      OutcomesAreThePolls(w, t, Contents(), w.clock(ticks - 1));
      var values, ids := Values();
      r := Summarise(SortBySequence(values));
      SummaryIsRight(samples, ids);
    }
  }

  // ---------------------------------------------------------------- the summary

  function Count(samples: seq<Sample>, p: Sample -> bool): nat {
    if samples == [] then 0 else (if p(samples[0]) then 1 else 0) + Count(samples[1..], p)
  }

  function CompletedIn(phase: Phase): Sample -> bool {
    (s: Sample) => s.completed && s.phase == Some(phase)
  }

  function CompletedBetween(from: int, to: int): Sample -> bool {
    (s: Sample) => s.completed && s.observedAt.Some? && from <= s.observedAt.value <= to
  }

  function CompletedBefore(from: int): Sample -> bool {
    (s: Sample) => s.completed && s.observedAt.Some? && s.observedAt.value < from
  }

  function CompletedAfter(to: int): Sample -> bool {
    (s: Sample) => s.completed && s.observedAt.Some? && to < s.observedAt.value
  }

  predicate IsCompleted(s: Sample) { s.completed }

  predicate IsRolledBack(s: Sample) { s.rolledBack }

  predicate IsTerminal(s: Sample) { s.terminal }

  predicate IsTimedOut(s: Sample) { s.timedOut }

  datatype Summary = Summary(submitted: nat, completed: nat, rolledBack: nat, timedOut: nat,
                             warmup: nat, measurement: nat, postMeasurement: nat)

  function Weight(p: Sample -> bool): (string, Sample) -> nat {
    (id: string, s: Sample) => if p(s) then 1 else 0
  }

  /** How many requests have a sample with property `p`. */
  ghost function CountIn(samples: map<string, Sample>, p: Sample -> bool): nat {
    Total<Sample>(samples, Weight(p))
  }

  /** Properties that agree on every sample count alike. */
  lemma {:induction false} SameCount(samples: map<string, Sample>, p: Sample -> bool, q: Sample -> bool)
    requires forall id | id in samples :: p(samples[id]) == q(samples[id])
    ensures CountIn(samples, p) == CountIn(samples, q)
    decreases |samples|
  {
    if samples != map[] {
      var id :| id in samples;
      Pick<Sample>(samples, Weight(p), id);
      Pick<Sample>(samples, Weight(q), id);
      SameCount(samples - {id}, p, q);
    }
  }

  /** The completions of a phase are those observed in its interval. */
  lemma CompletionsByTime(w: World, t: Times, d: Tables, end: int)
    requires Final(w, t, d, end) && t.start <= t.measureFrom < t.measureTo
    ensures CountIn(d.samples, CompletedIn(Measurement)) == CountIn(d.samples, CompletedBetween(t.measureFrom, t.measureTo))
    ensures CountIn(d.samples, CompletedIn(Warmup)) == CountIn(d.samples, CompletedBefore(t.measureFrom))
    ensures CountIn(d.samples, CompletedIn(PostMeasurement)) == CountIn(d.samples, CompletedAfter(t.measureTo))
    ensures forall id | id in d.samples :: Closed(d.samples[id])
  {
    forall id | id in d.samples
      ensures CompletedIn(Measurement)(d.samples[id]) == CompletedBetween(t.measureFrom, t.measureTo)(d.samples[id])
      ensures CompletedIn(Warmup)(d.samples[id]) == CompletedBefore(t.measureFrom)(d.samples[id])
      ensures CompletedIn(PostMeasurement)(d.samples[id]) == CompletedAfter(t.measureTo)(d.samples[id])
      ensures Closed(d.samples[id]) {
      assert FinalRow(w, t, d, end, id);
      if d.samples[id].terminal {
        TerminalSampleIsThePoll(w, t, d, end, id);
      }
    }
    SameCount(d.samples, CompletedIn(Measurement), CompletedBetween(t.measureFrom, t.measureTo));
    SameCount(d.samples, CompletedIn(Warmup), CompletedBefore(t.measureFrom));
    SameCount(d.samples, CompletedIn(PostMeasurement), CompletedAfter(t.measureTo));
  }

  /** How many requests were found terminal by a poll whose answer has the property `p`. */
  ghost function Polled(w: World, d: Tables, p: Status -> bool): nat {
    Total<Sample>(d.samples, PollWeight(w, d.trace, p))
  }

  ghost function PollWeight(w: World, trace: map<string, (nat, nat)>, p: Status -> bool): (string, Sample) -> nat {
    (id: string, s: Sample) => if s.terminal && id in trace && p(w.poll(id, trace[id].0)) then 1 else 0
  }

  lemma {:induction false} SameTotal(m: map<string, Sample>, v: (string, Sample) -> nat, u: (string, Sample) -> nat)
    requires forall id | id in m :: v(id, m[id]) == u(id, m[id])
    ensures Total<Sample>(m, v) == Total<Sample>(m, u)
    decreases |m|
  {
    if m != map[] {
      var id :| id in m;
      Pick<Sample>(m, v, id);
      Pick<Sample>(m, u, id);
      SameTotal(m - {id}, v, u);
    }
  }

  predicate SaysCompleted(answer: Status) { answer.completed }

  predicate SaysRolledBack(answer: Status) { answer.rolledBack }

  lemma OutcomeIsThePoll(w: World, t: Times, d: Tables, end: int, id: string)
    requires Final(w, t, d, end) && id in d.samples
    ensures var s := d.samples[id];
            if s.terminal then id in d.trace && s.completed == w.poll(id, d.trace[id].0).completed
                               && s.rolledBack == w.poll(id, d.trace[id].0).rolledBack
            else !s.completed && !s.rolledBack
  {
    assert FinalRow(w, t, d, end, id);
    if d.samples[id].terminal {
      TerminalSampleIsThePoll(w, t, d, end, id);
    }
  }

  lemma OutcomesAreThePolls(w: World, t: Times, d: Tables, end: int)
    requires Final(w, t, d, end)
    ensures CountIn(d.samples, IsCompleted) == Polled(w, d, SaysCompleted)
    ensures CountIn(d.samples, IsRolledBack) == Polled(w, d, SaysRolledBack)
  {
    forall id | id in d.samples
      ensures Weight(IsCompleted)(id, d.samples[id]) == PollWeight(w, d.trace, SaysCompleted)(id, d.samples[id])
      ensures Weight(IsRolledBack)(id, d.samples[id]) == PollWeight(w, d.trace, SaysRolledBack)(id, d.samples[id]) {
      OutcomeIsThePoll(w, t, d, end, id);
      var s := d.samples[id];
      var f, g := IsCompleted, IsRolledBack;
      assert f(s) == s.completed && g(s) == s.rolledBack;
    }
    SameTotal(d.samples, Weight(IsCompleted), PollWeight(w, d.trace, SaysCompleted));
    SameTotal(d.samples, Weight(IsRolledBack), PollWeight(w, d.trace, SaysRolledBack));
  }

  function Summarise(final: seq<Sample>): Summary {
    Summary(|final|, Count(final, IsCompleted), Count(final, IsRolledBack), Count(final, IsTimedOut),
            Count(final, CompletedIn(Warmup)), Count(final, CompletedIn(Measurement)), Count(final, CompletedIn(PostMeasurement)))
  }

  ghost function SummaryOf(samples: map<string, Sample>): Summary {
    Summary(|samples|, CountIn(samples, IsCompleted), CountIn(samples, IsRolledBack), CountIn(samples, IsTimedOut),
            CountIn(samples, CompletedIn(Warmup)), CountIn(samples, CompletedIn(Measurement)), CountIn(samples, CompletedIn(PostMeasurement)))
  }

  /** All keys of the table, each once. */
  ghost predicate Enumerates<T>(ids: seq<string>, m: map<string, T>) {
    && (forall id :: id in ids <==> id in m)
    && (forall i, j | 0 <= i < j < |ids| :: ids[i] != ids[j])
  }

  ghost function ValuesAt<T>(m: map<string, T>, ids: seq<string>): seq<T>
    requires forall i | 0 <= i < |ids| :: ids[i] in m
  {
    seq(|ids|, i requires 0 <= i < |ids| => m[ids[i]])
  }

  /** Counting in a list of all samples is counting in the table. */
  lemma {:induction false} ListCounts(m: map<string, Sample>, ids: seq<string>, p: Sample -> bool)
    requires Enumerates(ids, m)
    ensures Count(ValuesAt(m, ids), p) == CountIn(m, p) && |ids| == |m|
  {
    if ids == [] {
      assert m == map[];
    } else {
      var rest := m - {ids[0]};
      RestEnumerates(m, ids);
      ListCounts(rest, ids[1..], p);
      Pick<Sample>(m, Weight(p), ids[0]);
      OneLess(m, ids[0]);
    }
  }

  lemma RestEnumerates(m: map<string, Sample>, ids: seq<string>)
    requires Enumerates(ids, m) && ids != []
    ensures ids[0] in m && Enumerates(ids[1..], m - {ids[0]})
    ensures ValuesAt(m, ids)[0] == m[ids[0]] && ValuesAt(m, ids)[1..] == ValuesAt(m - {ids[0]}, ids[1..])
  {
    assert ids[0] in ids;
    TailEnumerates(m, ids);
    assert ValuesAt(m, ids)[1..] == ValuesAt(m - {ids[0]}, ids[1..]);
  }

  lemma TailEnumerates<T>(m: map<string, T>, ids: seq<string>)
    requires Enumerates(ids, m) && ids != []
    ensures Enumerates(ids[1..], m - {ids[0]})
  {
    var tail, rest := ids[1..], m - {ids[0]};
    assert ids == [ids[0]] + tail;
    assert ids[0] !in tail;
    forall id ensures id in tail <==> id in rest {
      assert id in ids <==> id in m;
    }
  }

  function InsertSample(s: Sample, xs: seq<Sample>): seq<Sample> {
    if xs == [] || s.request.sequence <= xs[0].request.sequence then [s] + xs else [xs[0]] + InsertSample(s, xs[1..])
  }

  function SortBySequence(xs: seq<Sample>): seq<Sample> {
    if xs == [] then [] else InsertSample(xs[0], SortBySequence(xs[1..]))
  }

  lemma {:induction false} InsertCounts(s: Sample, xs: seq<Sample>, p: Sample -> bool)
    ensures Count(InsertSample(s, xs), p) == Count(xs, p) + (if p(s) then 1 else 0) && |InsertSample(s, xs)| == |xs| + 1
  {
    if xs != [] && s.request.sequence > xs[0].request.sequence {
      InsertCounts(s, xs[1..], p);
      assert InsertSample(s, xs)[1..] == InsertSample(s, xs[1..]);
    } else {
      assert InsertSample(s, xs)[1..] == xs;
    }
  }

  /** Sorting changes no figure. */
  lemma {:induction false} SortCounts(xs: seq<Sample>, p: Sample -> bool)
    ensures Count(SortBySequence(xs), p) == Count(xs, p) && |SortBySequence(xs)| == |xs|
  {
    if xs != [] {
      SortCounts(xs[1..], p);
      InsertCounts(xs[0], SortBySequence(xs[1..]), p);
    }
  }

  lemma FigureIsRight(samples: map<string, Sample>, ids: seq<string>, p: Sample -> bool)
    requires Enumerates(ids, samples)
    ensures Count(SortBySequence(ValuesAt(samples, ids)), p) == Count(ValuesAt(samples, ids), p) == CountIn(samples, p)
    ensures |SortBySequence(ValuesAt(samples, ids))| == |samples|
  {
    ListCounts(samples, ids, p);
    SortCounts(ValuesAt(samples, ids), p);
  }

  lemma SummaryIsRight(samples: map<string, Sample>, ids: seq<string>)
    requires Enumerates(ids, samples) && forall id | id in samples :: Closed(samples[id])
    ensures Summarise(SortBySequence(ValuesAt(samples, ids))) == SummaryOf(samples)
    ensures AddsUp(samples, SummaryOf(samples))
  {
    FiguresAreRight(samples, ids);
    FigureIsRight(samples, ids, IsTerminal);
    var values := ValuesAt(samples, ids);
    forall i | 0 <= i < |values| ensures Closed(values[i]) {
      assert ids[i] in samples;
    }
    SummaryAddsUp(values);
    SortCounts(values, IsTerminal);
  }

  ghost predicate AddsUp(samples: map<string, Sample>, r: Summary) {
    && r.completed == r.warmup + r.measurement + r.postMeasurement
    && r.submitted == CountIn(samples, IsTerminal) + r.timedOut
  }

  lemma FiguresAreRight(samples: map<string, Sample>, ids: seq<string>)
    requires Enumerates(ids, samples)
    ensures Summarise(SortBySequence(ValuesAt(samples, ids))) == Summarise(ValuesAt(samples, ids)) == SummaryOf(samples)
  {
    ListCounts(samples, ids, IsCompleted);
    FigureIsRight(samples, ids, IsCompleted);
    FigureIsRight(samples, ids, IsRolledBack);
    FigureIsRight(samples, ids, IsTimedOut);
    FigureIsRight(samples, ids, CompletedIn(Warmup));
    FigureIsRight(samples, ids, CompletedIn(Measurement));
    FigureIsRight(samples, ids, CompletedIn(PostMeasurement));
  }

  /** Over closed samples the completions of the three phases add up to all completions,
      and terminal and timed-out requests add up to all requests. */
  lemma {:induction false} SummaryAddsUp(samples: seq<Sample>)
    requires forall i | 0 <= i < |samples| :: Closed(samples[i])
    ensures Count(samples, IsCompleted)
            == Count(samples, CompletedIn(Warmup)) + Count(samples, CompletedIn(Measurement)) + Count(samples, CompletedIn(PostMeasurement))
    ensures |samples| == Count(samples, IsTerminal) + Count(samples, IsTimedOut)
  {
    if samples != [] {
      assert Closed(samples[0]);
      SummaryAddsUp(samples[1..]);
    }
  }
}
