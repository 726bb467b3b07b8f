/** The per-recipient notification batcher. Times are readings, in milliseconds, of one clock that
    does not go backwards; each operation reads it once and takes effect at that time. */
module Batcher {
  import opened Prelude

  type Event = string
  type Recipient = string

  datatype Config = Config(quiet: nat, cap: nat, maxBatchSize: nat, pollInterval: nat)

  datatype Batch = Batch(quietDeadline: int, capDeadline: int, events: seq<Event>)

  type Batches = map<Recipient, Batch>

  // ----- what the operations do to the pending batches -----

  function Enqueued(cfg: Config, b: Batches, r: Recipient, e: Event, now: int): (b': Batches) {
    var before := if r in b then b[r] else Batch(now + cfg.quiet, now + cfg.cap, []);
    var events := before.events + [e];
    var quiet := if |events| >= cfg.maxBatchSize then now else now + cfg.quiet;
    b[r := Batch(quiet, before.capDeadline, events)]
  }

  predicate Due(batch: Batch, now: int) {
    now >= batch.quietDeadline || now >= batch.capDeadline
  }

  function Kept(b: Batches, now: int): (b': Batches) {
    map r | r in b && !Due(b[r], now) :: b[r]
  }

  function Deadline(batch: Batch): int {
    if batch.quietDeadline <= batch.capDeadline then batch.quietDeadline else batch.capDeadline
  }

  /** `out` lists each recipient whose batch satisfies `p` once, with its events. */
  ghost predicate Lists(out: seq<(Recipient, seq<Event>)>, b: Batches, p: Batch -> bool) {
    && (forall i, j :: 0 <= i < j < |out| ==> out[i].0 != out[j].0)
    && (forall x :: x in out <==> x.0 in b && p(b[x.0]) && x.1 == b[x.0].events)
  }

  // ----- the batcher -----

  class Batching {
    const config: Config
    var batches: Batches

    constructor (config: Config)
      ensures this.config == config && batches == map[]
    {
      this.config := config;
      batches := map[];
    }

    method Enqueue(recipient: Recipient, event: Event, now: int)
      modifies this
      ensures batches == Enqueued(config, old(batches), recipient, event, now)
    {
      var capDeadline := now + config.cap;
      var quietDeadline := now + config.quiet;
      var batch := if recipient in batches then batches[recipient] else Batch(quietDeadline, capDeadline, []);
      batch := batch.(events := batch.events + [event]);
      batch := batch.(quietDeadline := quietDeadline);
      if |batch.events| >= config.maxBatchSize {
        batch := batch.(quietDeadline := now);
      }
      batches := batches[recipient := batch];
    }

    /** Take out every batch that is due, and no other. */
    method DrainDue(now: int) returns (out: seq<(Recipient, seq<Event>)>)
      modifies this
      ensures batches == Kept(old(batches), now)
      ensures Lists(out, old(batches), (batch: Batch) => Due(batch, now))
    {
      out := [];
      var keys := batches.Keys;
      ghost var before := batches;
      while keys != {}
        invariant keys <= before.Keys
        invariant forall r :: r in batches <==> r in before && (r in keys || !Due(before[r], now))
        invariant forall r :: r in batches ==> batches[r] == before[r]
        invariant forall x :: x in out <==>
                    x.0 in before && x.0 !in keys && Due(before[x.0], now) && x.1 == before[x.0].events
        invariant forall i, j :: 0 <= i < j < |out| ==> out[i].0 != out[j].0
      {
        var r :| r in keys;
        keys := keys - {r};
        if Due(batches[r], now) {
          out := out + [(r, batches[r].events)];
          batches := batches - {r};
        }
      }
    }

    /** Take out everything on shutdown; batches without events are dropped. */
    method DrainAll() returns (out: seq<(Recipient, seq<Event>)>)
      modifies this
      ensures batches == map[]
      ensures Lists(out, old(batches), (batch: Batch) => batch.events != [])
    {
      out := [];
      var keys := batches.Keys;
      while keys != {}
        invariant keys <= batches.Keys
        invariant forall x :: x in out <==>
                    x.0 in batches && x.0 !in keys && batches[x.0].events != [] && x.1 == batches[x.0].events
        invariant forall i, j :: 0 <= i < j < |out| ==> out[i].0 != out[j].0
        modifies {}
      {
        var r :| r in keys;
        keys := keys - {r};
        if batches[r].events != [] {
          out := out + [(r, batches[r].events)];
        }
      }
      batches := map[];
    }

    /** How long the flusher may sleep: until the earliest deadline, but at least 10 ms. If nothing
        is enqueued meanwhile, some batch is due when it wakes, and none has been due for longer
        than 10 ms beyond what was overdue already. */
    method ComputeSleep(now: int) returns (sleep: nat)
      ensures batches == map[] ==> sleep == config.pollInterval
      ensures batches != map[] ==> sleep >= 10
      ensures batches != map[] ==> exists r :: r in batches && Due(batches[r], now + sleep)
      ensures forall r :: r in batches ==>
                sleep == 10 || (now + sleep <= batches[r].quietDeadline && now + sleep <= batches[r].capDeadline)
    {
      var earliest: Option<int> := None;
      var keys := batches.Keys;
      while keys != {}
        invariant keys <= batches.Keys
        invariant earliest.None? <==> keys == batches.Keys
        invariant earliest.Some? ==> exists r :: r in batches && Deadline(batches[r]) == earliest.value
        invariant forall r :: r in batches && r !in keys ==> earliest.Some? && earliest.value <= Deadline(batches[r])
      {
        var r :| r in keys;
        keys := keys - {r};
        var d := Deadline(batches[r]);
        if earliest.None? || d < earliest.value {
          earliest := Some(d);
        }
      }
      match earliest
      case Some(d) => sleep := if d - now > 10 then d - now else 10;
      case None => sleep := config.pollInterval;
    }

    // ----- whole runs -----

    /** One operation; the batches it takes out are stamped with its time. */
    method Step(op: Op) returns (drained: seq<(Recipient, Drain)>)
      modifies this
      ensures batches == Apply(config, old(batches), op)
      ensures forall r :: For(drained, r) ==
                if Drains(old(batches), op, r) then [Drain(op.now, old(batches)[r].events)] else []
    {
      ghost var before := batches;
      var out: seq<(Recipient, seq<Event>)> := [];
      match op {
        case OpEnqueue(r, e, now) => Enqueue(r, e, now);
        case OpDrainDue(now) => out := DrainDue(now);
        case OpShutdown(_) => out := DrainAll();
      }
      drained := Stamped(out, op.now);
      forall r
        ensures For(drained, r) == if Drains(before, op, r) then [Drain(op.now, before[r].events)] else []
      {
        if Drains(before, op, r) {
          var i :| 0 <= i < |out| && out[i] == (r, before[r].events);
          ListedOnce(out, op.now, r, i);
        } else {
          NotListed(out, op.now, r);
        }
      }
    }

    /** A run on a new batcher leaves the batches the machine has, and takes out per recipient what
        the machine drains, in order. */
    method Execute(ops: seq<Op>) returns (drained: seq<(Recipient, Drain)>)
      requires batches == map[]
      modifies this
      ensures batches == Run(config, ops)
      ensures forall r :: For(drained, r) == DrainsOf(config, ops, r)
    {
      hide Apply, Drains;
      drained := [];
      for i := 0 to |ops|
        invariant batches == Run(config, ops[..i])
        invariant forall r :: For(drained, r) == DrainsOf(config, ops[..i], r)
      {
        assert ops[..i + 1][..i] == ops[..i];
        ghost var before := drained;
        var more := Step(ops[i]);
        drained := drained + more;
        forall r
          ensures For(drained, r) == DrainsOf(config, ops[..i + 1], r)
        {
          ForConcat(before, more, r);
        }
      }
      assert ops[..|ops|] == ops;
    }
  }

  // ----- what was taken out, per recipient -----

  function For(drained: seq<(Recipient, Drain)>, r: Recipient): (ds: seq<Drain>) {
    if drained == [] then []
    else
      var init, last := For(drained[..|drained| - 1], r), drained[|drained| - 1];
      if last.0 == r then init + [last.1] else init
  }

  lemma {:induction false} ForConcat(a: seq<(Recipient, Drain)>, b: seq<(Recipient, Drain)>, r: Recipient)
    ensures For(a + b, r) == For(a, r) + For(b, r)
  {
    if b == [] {
      assert a + b == a;
    } else {
      ForConcat(a, b[..|b| - 1], r);
      assert (a + b)[..|a + b| - 1] == a + b[..|b| - 1];
    }
  }

  function Stamped(out: seq<(Recipient, seq<Event>)>, now: int): (ds: seq<(Recipient, Drain)>)
    ensures |ds| == |out| && forall i :: 0 <= i < |out| ==> ds[i] == (out[i].0, Drain(now, out[i].1))
  {
    seq(|out|, i requires 0 <= i < |out| => (out[i].0, Drain(now, out[i].1)))
  }

  lemma {:induction false} NotListed(out: seq<(Recipient, seq<Event>)>, now: int, r: Recipient)
    requires forall x :: x in out ==> x.0 != r
    ensures For(Stamped(out, now), r) == []
  {
    if out != [] {
      var init := out[..|out| - 1];
      NotListed(init, now, r);
      assert Stamped(out, now)[..|init|] == Stamped(init, now);
      assert out[|init|] in out;
    }
  }

  lemma {:induction false} ListedOnce(out: seq<(Recipient, seq<Event>)>, now: int, r: Recipient, i: nat)
    requires i < |out| && out[i].0 == r
    requires forall j, k :: 0 <= j < k < |out| ==> out[j].0 != out[k].0
    ensures For(Stamped(out, now), r) == [Drain(now, out[i].1)]
  {
    var init := out[..|out| - 1];
    assert Stamped(out, now)[..|init|] == Stamped(init, now);
    if i == |init| {
      NotListed(init, now, r);
    } else {
      ListedOnce(init, now, r, i);
    }
  }

  // ----- runs -----

  datatype Op = OpEnqueue(recipient: Recipient, event: Event, now: int) | OpDrainDue(now: int) | OpShutdown(now: int)

  function Apply(cfg: Config, b: Batches, op: Op): (b': Batches) {
    match op
    case OpEnqueue(r, e, now) => Enqueued(cfg, b, r, e, now)
    case OpDrainDue(now) => Kept(b, now)
    case OpShutdown(_) => map[]
  }

  function Run(cfg: Config, ops: seq<Op>): (b: Batches) {
    if ops == [] then map[] else Apply(cfg, Run(cfg, ops[..|ops| - 1]), ops[|ops| - 1])
  }

  predicate ClockIsMonotone(ops: seq<Op>) {
    forall i, j :: 0 <= i < j < |ops| ==> ops[i].now <= ops[j].now
  }

  /** No operation is later than `now`. */
  ghost predicate Until(ops: seq<Op>, now: int) {
    forall op :: op in ops ==> op.now <= now
  }

  lemma LastIsLatest(ops: seq<Op>)
    requires ClockIsMonotone(ops) && ops != []
    ensures ClockIsMonotone(ops[..|ops| - 1]) && Until(ops[..|ops| - 1], ops[|ops| - 1].now)
  {
  }

  /** All events ever enqueued for a recipient. */
  function History(ops: seq<Op>, r: Recipient): (es: seq<Event>) {
    if ops == [] then []
    else
      var init, op := ops[..|ops| - 1], ops[|ops| - 1];
      if op.OpEnqueue? && op.recipient == r then History(init, r) + [op.event] else History(init, r)
  }

  datatype Drain = Drain(time: int, events: seq<Event>)

  /** The step takes the recipient's batch out. */
  predicate Drains(b: Batches, op: Op, r: Recipient) {
    r in b && ((op.OpDrainDue? && Due(b[r], op.now)) || (op.OpShutdown? && b[r].events != []))
  }

  /** The recipient's batches taken out, oldest first. */
  function DrainsOf(cfg: Config, ops: seq<Op>, r: Recipient): (ds: seq<Drain>) {
    if ops == [] then []
    else
      var init, op := ops[..|ops| - 1], ops[|ops| - 1];
      var b := Run(cfg, init);
      if Drains(b, op, r) then DrainsOf(cfg, init, r) + [Drain(op.now, b[r].events)] else DrainsOf(cfg, init, r)
  }

  function AllEvents(ds: seq<Drain>): (es: seq<Event>) {
    if ds == [] then [] else AllEvents(ds[..|ds| - 1]) + ds[|ds| - 1].events
  }

  function PendingOf(b: Batches, r: Recipient): seq<Event> {
    if r in b then b[r].events else []
  }

  /** Nothing is lost, duplicated or reordered: a recipient's drained batches, followed by the
      pending one, are what was enqueued. */
  lemma {:induction false} EventsAreConserved(cfg: Config, ops: seq<Op>, r: Recipient)
    ensures AllEvents(DrainsOf(cfg, ops, r)) + PendingOf(Run(cfg, ops), r) == History(ops, r)
  {
    hide Apply;
    if ops != [] {
      var init, op := ops[..|ops| - 1], ops[|ops| - 1];
      EventsAreConserved(cfg, init, r);
      var b, ds := Run(cfg, init), DrainsOf(cfg, init, r);
      PendingAfter(cfg, b, op, r);
      if Drains(b, op, r) {
        assert (ds + [Drain(op.now, b[r].events)])[..|ds|] == ds;
      }
    }
  }

  /** A step drains the pending events, adds one, or leaves them. */
  lemma PendingAfter(cfg: Config, b: Batches, op: Op, r: Recipient)
    ensures PendingOf(Apply(cfg, b, op), r) ==
            if Drains(b, op, r) then []
            else if op.OpEnqueue? && op.recipient == r then PendingOf(b, r) + [op.event]
            else PendingOf(b, r)
    ensures Drains(b, op, r) ==> r !in Apply(cfg, b, op) && PendingOf(b, r) == b[r].events
  {
  }

  /** When the events of the recipient's pending batch arrived. */
  function Arrivals(cfg: Config, ops: seq<Op>, r: Recipient): (ts: seq<int>) {
    if ops == [] then []
    else
      var init, op := ops[..|ops| - 1], ops[|ops| - 1];
      if op.OpEnqueue? && op.recipient == r then Arrivals(cfg, init, r) + [op.now]
      else if r in Apply(cfg, Run(cfg, init), op) then Arrivals(cfg, init, r)
      else []
  }

  /** The pending batch and its deadlines, from the arrivals of its events. */
  ghost predicate Timed(cfg: Config, b: Batches, r: Recipient, ts: seq<int>) {
    && (r in b <==> ts != [])
    && (r in b ==>
          && |b[r].events| == |ts|
          && b[r].capDeadline == ts[0] + cfg.cap
          && b[r].quietDeadline == ts[|ts| - 1] + if |ts| >= cfg.maxBatchSize then 0 else cfg.quiet)
  }

  lemma {:induction false} DeadlinesFollowArrivals(cfg: Config, ops: seq<Op>, r: Recipient)
    ensures Timed(cfg, Run(cfg, ops), r, Arrivals(cfg, ops, r))
  {
    if ops != [] {
      DeadlinesFollowArrivals(cfg, ops[..|ops| - 1], r);
    }
  }

  lemma {:induction false} ArrivalsAreOrdered(cfg: Config, ops: seq<Op>, r: Recipient, now: int)
    requires ClockIsMonotone(ops) && Until(ops, now)
    ensures var ts := Arrivals(cfg, ops, r);
            && (forall t :: t in ts ==> t <= now)
            && (ts != [] ==> ts[0] <= ts[|ts| - 1])
  {
    if ops != [] {
      var init, op := ops[..|ops| - 1], ops[|ops| - 1];
      LastIsLatest(ops);
      ArrivalsAreOrdered(cfg, init, r, op.now);
      var ts := Arrivals(cfg, init, r);
      assert ts != [] ==> ts[0] in ts;
    }
  }

  /** A batch leaves with a drain exactly when the cap has passed since its first event, the quiet time
      has passed since its last, or it is full. */
  lemma BatchesLeaveInTime(cfg: Config, ops: seq<Op>, r: Recipient, now: int)
    requires ClockIsMonotone(ops) && Until(ops, now)
    requires r in Run(cfg, ops)
    ensures Arrivals(cfg, ops, r) != []
    ensures var ts := Arrivals(cfg, ops, r);
            r !in Kept(Run(cfg, ops), now) <==>
            now >= ts[0] + cfg.cap || now >= ts[|ts| - 1] + cfg.quiet || |ts| >= cfg.maxBatchSize
    ensures |Arrivals(cfg, ops, r)| == |Run(cfg, ops)[r].events|
  {
    hide Run, Arrivals;
    DeadlinesFollowArrivals(cfg, ops, r);
    ArrivalsAreOrdered(cfg, ops, r, now);
    var ts := Arrivals(cfg, ops, r);
    assert ts[|ts| - 1] in ts;
  }

  function Min(a: nat, b: nat): nat {
    if a <= b then a else b
  }

  /** No shutdown, and no batch of the recipient reached the size limit. */
  ghost predicate Unforced(cfg: Config, ops: seq<Op>, r: Recipient) {
    && (forall op :: op in ops ==> !op.OpShutdown?)
    && (forall d :: d in DrainsOf(cfg, ops, r) ==> |d.events| < cfg.maxBatchSize)
  }

  lemma {:induction false} DrainsAreEarlier(cfg: Config, ops: seq<Op>, r: Recipient, now: int)
    requires Until(ops, now)
    ensures forall d :: d in DrainsOf(cfg, ops, r) ==> d.time <= now
  {
    if ops != [] {
      DrainsAreEarlier(cfg, ops[..|ops| - 1], r, now);
    }
  }

  /** Pending events arrived after the last drain. */
  lemma {:induction false} PendingIsNewer(cfg: Config, ops: seq<Op>, r: Recipient)
    requires ClockIsMonotone(ops)
    ensures var ds, ts := DrainsOf(cfg, ops, r), Arrivals(cfg, ops, r);
            ds != [] && ts != [] ==> ds[|ds| - 1].time <= ts[0]
  {
    hide Apply, PendingOf;
    if ops != [] {
      var init, op := ops[..|ops| - 1], ops[|ops| - 1];
      LastIsLatest(ops);
      PendingIsNewer(cfg, init, r);
      DrainsAreEarlier(cfg, init, r, op.now);
      var ds := DrainsOf(cfg, init, r);
      assert ds != [] ==> ds[|ds| - 1] in ds;
      PendingAfter(cfg, Run(cfg, init), op, r);
    }
  }

  ghost predicate SpacedBy(ds: seq<Drain>, gap: nat) {
    forall i :: 0 <= i < |ds| - 1 ==> ds[i].time + gap <= ds[i + 1].time
  }

  /** Consecutive drains of one recipient are at least the shorter of the two timers apart. */
  lemma {:induction false} DrainsAreSpaced(cfg: Config, ops: seq<Op>, r: Recipient)
    requires ClockIsMonotone(ops) && Unforced(cfg, ops, r)
    ensures SpacedBy(DrainsOf(cfg, ops, r), Min(cfg.quiet, cfg.cap))
  {
    hide Run, Arrivals;
    if ops != [] {
      var init, op := ops[..|ops| - 1], ops[|ops| - 1];
      assert forall d :: d in DrainsOf(cfg, init, r) ==> d in DrainsOf(cfg, ops, r);
      DrainsAreSpaced(cfg, init, r);
      if Drains(Run(cfg, init), op, r) {
        var d := Drain(op.now, Run(cfg, init)[r].events);
        assert op in ops && d in DrainsOf(cfg, ops, r);
        NextDrainIsLater(cfg, init, r, op.now);
      }
    }
  }

  /** A batch below the size limit becomes due no sooner than the shorter timer after the last drain. */
  lemma NextDrainIsLater(cfg: Config, ops: seq<Op>, r: Recipient, now: int)
    requires ClockIsMonotone(ops) && Until(ops, now)
    requires r in Run(cfg, ops) && Due(Run(cfg, ops)[r], now) && |Run(cfg, ops)[r].events| < cfg.maxBatchSize
    ensures var ds := DrainsOf(cfg, ops, r);
            ds != [] ==> ds[|ds| - 1].time + Min(cfg.quiet, cfg.cap) <= now
  {
    hide Run, DrainsOf, Arrivals;
    PendingIsNewer(cfg, ops, r);
    DeadlinesFollowArrivals(cfg, ops, r);
    ArrivalsAreOrdered(cfg, ops, r, now);
  }

  lemma {:induction false} SpacedSpan(ds: seq<Drain>, gap: nat)
    requires SpacedBy(ds, gap) && ds != []
    ensures ds[|ds| - 1].time - ds[0].time >= (|ds| - 1) * gap
    decreases |ds|
  {
    if |ds| > 1 {
      var init := ds[..|ds| - 1];
      SpacedSpan(init, gap);
    }
  }

  /** `k` drains of one recipient span at least `k - 1` times the shorter timer. */
  lemma EmailsAreRateLimited(cfg: Config, ops: seq<Op>, r: Recipient)
    requires ClockIsMonotone(ops) && Unforced(cfg, ops, r) && DrainsOf(cfg, ops, r) != []
    ensures var ds := DrainsOf(cfg, ops, r);
            ds[|ds| - 1].time - ds[0].time >= (|ds| - 1) * Min(cfg.quiet, cfg.cap)
  {
    DrainsAreSpaced(cfg, ops, r);
    SpacedSpan(DrainsOf(cfg, ops, r), Min(cfg.quiet, cfg.cap));
  }
}
