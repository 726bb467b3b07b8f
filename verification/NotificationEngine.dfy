/** The notification engine's queue protocol as a step machine: any number of workers, a broker that
    delivers at least once, and a shared set of claimed idempotency keys. Claims do not expire.

    A delivery attempt is one run of `process_delivery` on one delivery of one message. The
    environment chooses every interleaving, every reply, every failure and every crash. */
module NotificationEngine {
  import opened Prelude

  type Key = string
  type MessageId = nat
  type AttemptId = nat

  /** Where an attempt is in `process_delivery`. */
  datatype Phase =
    | Delivered
    | Duplicate
    | ClaimFailed
    | Claimed
    | Unparseable
    | NothingToSend
    | Releasing
    | Released
    | Enqueueing(left: nat)
    | Enqueued
    | Over(last: Phase)

  /** `owns`: the attempt set the key and has not deleted it. `entered`: it reached the loop that
      enqueues into the batcher. */
  datatype Attempt = Attempt(message: MessageId, key: Key, phase: Phase, owns: bool, entered: bool)

  datatype Status = Queued | Held(attempt: AttemptId) | Unacked | Gone

  datatype Message = Message(key: Key, status: Status)

  datatype State = State(messages: map<MessageId, Message>, attempts: map<AttemptId, Attempt>, claims: set<Key>)

  const START := State(map[], map[], {})

  /** A call that succeeds, fails without effect, or takes effect although the caller sees an error. */
  datatype Reply = Done | FailedBefore | FailedAfter

  datatype Resolution = InvalidQid | OrgMissing | UdbFailed | Recipients(count: nat)

  datatype Step =
    | Publish(message: MessageId, key: Key)
    | Deliver(message: MessageId, a: AttemptId)
    | Claim(a: AttemptId, reply: Reply)
    | Resolve(a: AttemptId, resolution: Resolution)
    | EnqueueNext(a: AttemptId)
    | Release(a: AttemptId, reply: Reply)
    | Settle(a: AttemptId, reply: Reply)
    | Crash(a: AttemptId)
    | LoseChannel(a: AttemptId)
    | Redeliver(message: MessageId)

  // ----- the code -----

  /** After `try_claim`. */
  function AfterClaim(alreadyClaimed: bool, reply: Reply): Phase {
    if reply != Done then ClaimFailed else if alreadyClaimed then Duplicate else Claimed
  }

  /** After `resolve_recipients`. */
  function AfterResolve(r: Resolution): Phase {
    match r
    case InvalidQid => Unparseable
    case OrgMissing => NothingToSend
    case UdbFailed => Releasing
    case Recipients(n) => if n == 0 then NothingToSend else Enqueueing(n)
  }

  function AfterEnqueue(left: nat): Phase {
    if left == 0 then Enqueued else Enqueueing(left - 1)
  }

  /** The attempt ends by acknowledging, or by returning the message with or without requeueing. */
  predicate Settles(p: Phase) {
    p.Duplicate? || p.NothingToSend? || p.Enqueued? || p.ClaimFailed? || p.Released? || p.Unparseable?
  }

  predicate Requeues(p: Phase) {
    p.ClaimFailed? || p.Released?
  }

  // ----- steps -----

  predicate At(s: State, a: AttemptId, p: Phase) {
    a in s.attempts && s.attempts[a].phase == p
  }

  predicate Enabled(s: State, step: Step) {
    match step
    case Publish(m, _) => m !in s.messages
    case Deliver(m, a) => m in s.messages && s.messages[m].status == Queued && a !in s.attempts
    case Claim(a, _) => At(s, a, Delivered)
    case Resolve(a, _) => At(s, a, Claimed)
    case EnqueueNext(a) => a in s.attempts && s.attempts[a].phase.Enqueueing?
    case Release(a, _) => At(s, a, Releasing)
    case Settle(a, _) => a in s.attempts && Settles(s.attempts[a].phase)
    case Crash(a) => a in s.attempts && !s.attempts[a].phase.Over?
    case LoseChannel(a) => a in s.attempts && Holds(s, a)
    case Redeliver(m) => m in s.messages && s.messages[m].status == Unacked
  }

  /** The broker still has the message out to this attempt. */
  predicate Holds(s: State, a: AttemptId)
    requires a in s.attempts
  {
    s.attempts[a].message in s.messages && s.messages[s.attempts[a].message].status == Held(a)
  }

  function Update(s: State, a: AttemptId, t: Attempt): State {
    s.(attempts := s.attempts[a := t])
  }

  function Place(s: State, m: MessageId, status: Status): State
    requires m in s.messages
  {
    s.(messages := s.messages[m := s.messages[m].(status := status)])
  }

  /** What the broker does with the message of an attempt that settles in phase `p`. */
  function Settled(p: Phase, reply: Reply): Status {
    if reply == FailedBefore then Unacked else if Requeues(p) then Queued else Gone
  }

  function Apply(s: State, step: Step): (s': State)
    requires Enabled(s, step)
  {
    match step
    case Publish(m, key) => s.(messages := s.messages[m := Message(key, Queued)])
    case Deliver(m, a) =>
      Update(Place(s, m, Held(a)), a, Attempt(m, s.messages[m].key, Delivered, false, false))
    case Claim(a, reply) =>
      var t := s.attempts[a];
      var taken := t.key in s.claims;
      var s' := if reply == FailedBefore then s else s.(claims := s.claims + {t.key});
      Update(s', a, t.(phase := AfterClaim(taken, reply), owns := reply == Done && !taken))
    case Resolve(a, resolution) =>
      var t := s.attempts[a];
      var p := AfterResolve(resolution);
      Update(s, a, t.(phase := p, entered := p.Enqueueing?))
    case EnqueueNext(a) =>
      var t := s.attempts[a];
      Update(s, a, t.(phase := AfterEnqueue(t.phase.left)))
    case Release(a, reply) =>
      var t := s.attempts[a];
      var deleted := reply != FailedBefore;
      var s' := if deleted then s.(claims := s.claims - {t.key}) else s;
      Update(s', a, t.(phase := Released, owns := t.owns && !deleted))
    case Settle(a, reply) =>
      var t := s.attempts[a];
      var s' := if Holds(s, a) then Place(s, t.message, Settled(t.phase, reply)) else s;
      Update(s', a, t.(phase := Over(t.phase)))
    case Crash(a) =>
      var t := s.attempts[a];
      var s' := if Holds(s, a) then Place(s, t.message, Unacked) else s;
      Update(s', a, t.(phase := Over(t.phase)))
    case LoseChannel(a) => Place(s, s.attempts[a].message, Queued)
    case Redeliver(m) => Place(s, m, Queued)
  }

  /** The state to which the steps lead from `s`, if each of them was possible. */
  function From(s: State, steps: seq<Step>): (r: Option<State>) {
    if steps == [] then Some(s)
    else
      var before := From(s, steps[..|steps| - 1]);
      if before.Some? && Enabled(before.value, steps[|steps| - 1])
      then Some(Apply(before.value, steps[|steps| - 1])) else None
  }

  function Run(steps: seq<Step>): (r: Option<State>) {
    From(START, steps)
  }

  // ----- at most one attempt per key -----

  /** How far an attempt has come, or had come when it ended. */
  function Reached(p: Phase): Phase {
    if p.Over? then p.last else p
  }

  /** The attempt learned its recipients, or that there are none. */
  predicate Resolved(p: Phase) {
    Reached(p).Enqueueing? || Finishes(Reached(p))
  }

  /** What an attempt has done so far, by its phase. */
  ghost predicate Coherent(t: Attempt) {
    && (t.phase.Delivered? ==> !t.owns && !t.entered)
    && (t.phase.Claimed? || t.phase.Releasing? ==> t.owns && !t.entered)
    && (Resolved(t.phase) ==> t.owns)
    && (t.entered ==> t.owns)
  }

  /** Claims are exclusive: an owner's key is set, and no two attempts own one key. */
  ghost predicate Exclusive(s: State) {
    && (forall a :: a in s.attempts ==> Coherent(s.attempts[a]))
    && (forall a :: a in s.attempts && s.attempts[a].owns ==> s.attempts[a].key in s.claims)
    && (forall a, b | a in s.attempts && b in s.attempts && s.attempts[a].key == s.attempts[b].key ::
          s.attempts[a].owns && s.attempts[b].owns ==> a == b)
  }

  lemma StepKeepsCoherent(s: State, step: Step, b: AttemptId)
    requires Enabled(s, step) && b in Apply(s, step).attempts
    requires b in s.attempts ==> Coherent(s.attempts[b])
    ensures Coherent(Apply(s, step).attempts[b])
  {
  }

  /** An owner owned its key before, or has just claimed it while it was unclaimed. */
  lemma OwnerBefore(s: State, step: Step, b: AttemptId)
    requires Enabled(s, step) && b in Apply(s, step).attempts && Apply(s, step).attempts[b].owns
    ensures b in s.attempts && s.attempts[b].key == Apply(s, step).attempts[b].key
    ensures s.attempts[b].owns || (step == Claim(b, Done) && s.attempts[b].key !in s.claims)
  {
  }

  /** A claim is deleted only by an attempt that is releasing it. */
  lemma ClaimsAfter(s: State, step: Step, key: Key)
    requires Enabled(s, step)
    ensures key in s.claims && key !in Apply(s, step).claims ==>
              step.Release? && s.attempts[step.a].key == key && step.reply != FailedBefore
    ensures step.Claim? && step.reply == Done ==> s.attempts[step.a].key in Apply(s, step).claims
    ensures step.Release? && step.reply != FailedBefore ==>
              step.a in Apply(s, step).attempts && !Apply(s, step).attempts[step.a].owns
  {
  }

  lemma StepKeepsExclusive(s: State, step: Step)
    requires Exclusive(s) && Enabled(s, step)
    ensures Exclusive(Apply(s, step))
  {
    hide Apply, Enabled, Coherent;
    var s' := Apply(s, step);
    forall b | b in s'.attempts
      ensures Coherent(s'.attempts[b])
      ensures s'.attempts[b].owns ==> s'.attempts[b].key in s'.claims
    {
      StepKeepsCoherent(s, step, b);
      if s'.attempts[b].owns {
        OwnerBefore(s, step, b);
        ClaimsAfter(s, step, s'.attempts[b].key);
        ReleaserOwns(s, step);
      }
    }
    forall a, b | a in s'.attempts && b in s'.attempts && s'.attempts[a].key == s'.attempts[b].key &&
                  s'.attempts[a].owns && s'.attempts[b].owns
      ensures a == b
    {
      OwnerBefore(s, step, a);
      OwnerBefore(s, step, b);
    }
  }

  lemma ReleaserOwns(s: State, step: Step)
    requires Exclusive(s) && Enabled(s, step)
    ensures step.Release? ==> step.a in s.attempts && s.attempts[step.a].owns
  {
  }

  lemma {:induction false} EveryRunIsExclusive(steps: seq<Step>)
    requires Run(steps).Some?
    ensures Exclusive(Run(steps).value)
  {
    if steps != [] {
      EveryRunIsExclusive(steps[..|steps| - 1]);
      StepKeepsExclusive(Run(steps[..|steps| - 1]).value, steps[|steps| - 1]);
    }
  }

  /** However workers interleave, messages are duplicated or redelivered, calls fail and workers
      crash, at most one attempt per idempotency key ever enqueues into the batcher. */
  lemma AtMostOneAttemptEnters(steps: seq<Step>, a: AttemptId, b: AttemptId)
    requires Run(steps).Some? && a in Run(steps).value.attempts && b in Run(steps).value.attempts
    requires Run(steps).value.attempts[a].key == Run(steps).value.attempts[b].key
    requires Run(steps).value.attempts[a].entered && Run(steps).value.attempts[b].entered
    ensures a == b
  {
    EveryRunIsExclusive(steps);
  }

  // ----- no notification is lost -----

  /** No crash, no lost channel, no failed release, ack or nack, and a failed claim sets nothing. */
  predicate Calm(step: Step) {
    match step
    case Claim(_, reply) => reply != FailedAfter
    case Release(_, reply) => reply == Done
    case Settle(_, reply) => reply == Done
    case Crash(_) => false
    case LoseChannel(_) => false
    case _ => true
  }

  /** The phases that end a notification's processing. */
  predicate Finishes(p: Phase) {
    p.Unparseable? || p.NothingToSend? || p.Enqueued?
  }

  ghost predicate Finished(s: State, key: Key) {
    exists a :: a in s.attempts && s.attempts[a].key == key &&
      s.attempts[a].phase.Over? && Finishes(s.attempts[a].phase.last)
  }

  /** Attempt `a` holds a copy of the key that it will not drop as a duplicate. */
  ghost predicate KeepsCopy(s: State, a: AttemptId, key: Key) {
    && a in s.attempts && s.attempts[a].key == key && Holds(s, a)
    && !s.attempts[a].phase.Over? && s.attempts[a].phase != Duplicate
    && (s.attempts[a].phase == Delivered ==> key !in s.claims)
  }

  ghost predicate HasSafeCopy(s: State, key: Key) {
    || (exists m :: m in s.messages && s.messages[m].key == key && s.messages[m].status == Queued)
    || (exists a :: KeepsCopy(s, a, key))
  }

  ghost predicate Published(s: State, key: Key) {
    exists m :: m in s.messages && s.messages[m].key == key
  }

  /** The attempt owns the key on the way to finishing, or has finished. */
  ghost predicate Carries(s: State, a: AttemptId, key: Key) {
    && a in s.attempts && s.attempts[a].key == key && s.attempts[a].owns
    && var p := s.attempts[a].phase;
       || (p.Over? && Finishes(p.last))
       || p.Claimed? || p.Releasing? || p.Enqueueing? || Finishes(p)
  }

  /** The attempt will, or may, put the message back into the queue. */
  ghost predicate WaitsWith(s: State, a: AttemptId, key: Key) {
    && a in s.attempts && s.attempts[a].key == key
    && (s.attempts[a].phase.Delivered? || Requeues(s.attempts[a].phase))
  }

  ghost predicate InQueue(s: State, m: MessageId, key: Key) {
    m in s.messages && s.messages[m].key == key && s.messages[m].status == Queued
  }

  ghost predicate Waiting(s: State, key: Key) {
    (exists m :: InQueue(s, m, key)) || (exists a :: WaitsWith(s, a, key))
  }

  /** Every running attempt has its message. */
  ghost predicate AllHeld(s: State) {
    forall a :: a in s.attempts && !s.attempts[a].phase.Over? ==>
      Holds(s, a) && s.messages[s.attempts[a].message].key == s.attempts[a].key
  }

  /** Every claimed key is carried by an attempt. */
  ghost predicate AllCarried(s: State) {
    forall key :: key in s.claims ==> exists a :: Carries(s, a, key)
  }

  /** Every published key that is not claimed is waiting. */
  ghost predicate AllWaiting(s: State) {
    forall key :: Published(s, key) && key !in s.claims ==> Waiting(s, key)
  }

  ghost predicate NothingLost(s: State) {
    AllHeld(s) && AllCarried(s) && AllWaiting(s)
  }

  /** In a calm state every published key is finished or has a copy that will not be dropped. */
  lemma NothingLostMeansSafe(s: State, key: Key)
    requires NothingLost(s) && Published(s, key) && !Finished(s, key)
    ensures HasSafeCopy(s, key)
  {
    if key in s.claims {
      var a :| Carries(s, a, key);
      assert KeepsCopy(s, a, key);
    } else {
      if m :| InQueue(s, m, key) {
      } else {
        var a :| WaitsWith(s, a, key);
        assert KeepsCopy(s, a, key);
      }
    }
  }

  lemma StepKeepsHeld(s: State, step: Step)
    requires AllHeld(s) && Enabled(s, step) && Calm(step)
    ensures AllHeld(Apply(s, step))
  {
  }

  lemma CarrierStays(s: State, step: Step, a: AttemptId, key: Key)
    requires Enabled(s, step) && Calm(step) && Carries(s, a, key) && key in Apply(s, step).claims
    ensures Carries(Apply(s, step), a, key)
  {
  }

  lemma StepKeepsCarried(s: State, step: Step)
    requires AllCarried(s) && Enabled(s, step) && Calm(step)
    ensures AllCarried(Apply(s, step))
  {
    var s' := Apply(s, step);
    forall key | key in s'.claims
      ensures exists a :: Carries(s', a, key)
    {
      if key in s.claims {
        var a :| Carries(s, a, key);
        CarrierStays(s, step, a, key);
      } else {
        assert step.Claim? && Carries(s', step.a, key);
      }
    }
  }

  /** Whoever waits with a key still does, or has requeued it, or has claimed it. */
  lemma WaiterStays(s: State, step: Step, a: AttemptId, key: Key)
    requires AllHeld(s) && Enabled(s, step) && Calm(step) && WaitsWith(s, a, key)
    requires key !in Apply(s, step).claims && key !in s.claims
    ensures Waiting(Apply(s, step), key)
  {
    var s' := Apply(s, step);
    if step.Settle? && step.a == a {
      assert Holds(s, a);
      assert InQueue(s', s.attempts[a].message, key);
    } else {
      assert WaitsWith(s', a, key);
    }
  }

  lemma QueuedStays(s: State, step: Step, m: MessageId, key: Key)
    requires AllHeld(s) && Enabled(s, step) && Calm(step) && InQueue(s, m, key)
    ensures Waiting(Apply(s, step), key)
  {
    var s' := Apply(s, step);
    if step.Deliver? && step.message == m {
      assert WaitsWith(s', step.a, key);
    } else {
      assert InQueue(s', m, key);
    }
  }

  lemma StepKeepsWaiting(s: State, step: Step)
    requires Exclusive(s) && AllHeld(s) && AllWaiting(s) && Enabled(s, step) && Calm(step)
    ensures AllWaiting(Apply(s, step))
  {
    var s' := Apply(s, step);
    forall key | Published(s', key) && key !in s'.claims
      ensures Waiting(s', key)
    {
      if step.Publish? && step.key == key {
        assert InQueue(s', step.message, key);
      } else if key in s.claims {
        assert step.Release? && WaitsWith(s', step.a, key);
      } else {
        PublishedBefore(s, step, key);
        if m :| InQueue(s, m, key) {
          QueuedStays(s, step, m, key);
        } else {
          var a :| WaitsWith(s, a, key);
          WaiterStays(s, step, a, key);
        }
      }
    }
  }

  lemma PublishedBefore(s: State, step: Step, key: Key)
    requires Enabled(s, step) && Published(Apply(s, step), key) && !(step.Publish? && step.key == key)
    ensures Published(s, key)
  {
  }

  lemma {:induction false} CalmRunLosesNothing(steps: seq<Step>)
    requires Run(steps).Some? && forall step :: step in steps ==> Calm(step)
    ensures NothingLost(Run(steps).value)
  {
    if steps != [] {
      var init, step := steps[..|steps| - 1], steps[|steps| - 1];
      CalmRunLosesNothing(init);
      EveryRunIsExclusive(init);
      var s := Run(init).value;
      StepKeepsHeld(s, step);
      StepKeepsCarried(s, step);
      StepKeepsWaiting(s, step);
    }
  }

  /** In every calm run each published key is finished, or a copy of it is queued or held by an
      attempt that will not drop it as a duplicate. */
  lemma NoNotificationIsLost(steps: seq<Step>, key: Key)
    requires Run(steps).Some? && forall step :: step in steps ==> Calm(step)
    requires Published(Run(steps).value, key)
    ensures Finished(Run(steps).value, key) || HasSafeCopy(Run(steps).value, key)
  {
    CalmRunLosesNothing(steps);
    if !Finished(Run(steps).value, key) {
      NothingLostMeansSafe(Run(steps).value, key);
    }
  }
}
