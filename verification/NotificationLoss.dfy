/** When a notification is lost: exactly which states can still send a key without publishing it
    again, and exactly which steps make a key lost. */
module NotificationLoss {
  import opened Prelude
  import opened NotificationEngine

  // ----- messages and attempts belong together -----

  ghost predicate HeldBy(s: State, m: MessageId, a: AttemptId) {
    a in s.attempts && s.attempts[a].message == m && !s.attempts[a].phase.Over?
  }

  /** Attempts have known messages with their key, held messages have running holders, and claimed
      keys were published. */
  ghost predicate Linked(s: State) {
    && (forall a :: a in s.attempts ==>
          s.attempts[a].message in s.messages && s.messages[s.attempts[a].message].key == s.attempts[a].key)
    && (forall m :: m in s.messages && s.messages[m].status.Held? ==> HeldBy(s, m, s.messages[m].status.attempt))
    && (forall key :: key in s.claims ==> Published(s, key))
  }

  lemma PublishedAfter(s: State, step: Step, key: Key)
    requires Enabled(s, step)
    ensures Published(Apply(s, step), key) <==> Published(s, key) || Publishes(step, key)
  {
    var s' := Apply(s, step);
    if m :| m in s.messages && s.messages[m].key == key {
      assert m in s'.messages && s'.messages[m].key == key;
    }
    if Publishes(step, key) {
      assert step.message in s'.messages && s'.messages[step.message].key == key;
    }
  }

  predicate Publishes(step: Step, key: Key) {
    step.Publish? && step.key == key
  }

  lemma StepKeepsMessage(s: State, step: Step, a: AttemptId)
    requires Linked(s) && Enabled(s, step) && a in Apply(s, step).attempts
    ensures var s' := Apply(s, step);
            s'.attempts[a].message in s'.messages && s'.messages[s'.attempts[a].message].key == s'.attempts[a].key
  {
  }

  lemma StepKeepsHolder(s: State, step: Step, m: MessageId)
    requires Linked(s) && Enabled(s, step)
    requires m in Apply(s, step).messages && Apply(s, step).messages[m].status.Held?
    ensures HeldBy(Apply(s, step), m, Apply(s, step).messages[m].status.attempt)
  {
  }

  lemma StepKeepsLinked(s: State, step: Step)
    requires Linked(s) && Enabled(s, step)
    ensures Linked(Apply(s, step))
  {
    hide Apply, Published;
    var s' := Apply(s, step);
    forall a | a in s'.attempts
      ensures s'.attempts[a].message in s'.messages && s'.messages[s'.attempts[a].message].key == s'.attempts[a].key
    {
      StepKeepsMessage(s, step, a);
    }
    forall m | m in s'.messages && s'.messages[m].status.Held?
      ensures HeldBy(s', m, s'.messages[m].status.attempt)
    {
      StepKeepsHolder(s, step, m);
    }
    forall key | key in s'.claims
      ensures Published(s', key)
    {
      PublishedAfter(s, step, key);
      ClaimBefore(s, step, key);
    }
  }

  lemma ClaimBefore(s: State, step: Step, key: Key)
    requires Linked(s) && Enabled(s, step) && key in Apply(s, step).claims
    ensures Published(s, key)
  {
    if key !in s.claims {
      assert s.attempts[step.a].message in s.messages;
    }
  }

  lemma {:induction false} EveryRunIsLinked(steps: seq<Step>)
    requires Run(steps).Some?
    ensures Linked(Run(steps).value)
  {
    hide Apply, Enabled, Linked;
    if steps == [] {
      StartIsLinked();
    } else {
      EveryRunIsLinked(steps[..|steps| - 1]);
      StepKeepsLinked(Run(steps[..|steps| - 1]).value, steps[|steps| - 1]);
    }
  }

  lemma StartIsLinked()
    ensures Linked(START)
  {
  }

  // ----- what blocks a key -----

  /** The attempt may still enqueue its key or release it. */
  predicate Decides(p: Phase) {
    p.Claimed? || p.Releasing?
  }

  /** The key is claimed, and no attempt is about to enqueue or release it. */
  ghost predicate Blocked(s: State, key: Key) {
    && key in s.claims
    && forall a :: a in s.attempts && s.attempts[a].key == key ==> !Decides(s.attempts[a].phase)
  }

  /** The attempts that entered the enqueue loop. */
  ghost function Entered(s: State, key: Key): set<AttemptId> {
    set a | a in s.attempts && s.attempts[a].key == key && s.attempts[a].entered
  }

  /** An attempt of `key` learns its recipients. */
  ghost predicate LearnsRecipients(s: State, step: Step, key: Key)
    requires Enabled(s, step)
  {
    step.Resolve? && s.attempts[step.a].key == key && step.resolution != UdbFailed
  }

  /** A crash before the recipients are known or before a release, a claim that is set although it
      is reported as failed, or a release that fails. */
  ghost predicate Suppresses(s: State, step: Step, key: Key)
    requires Enabled(s, step)
  {
    match step
    case Crash(a) => s.attempts[a].key == key && Decides(s.attempts[a].phase)
    case Claim(a, reply) => s.attempts[a].key == key && reply == FailedAfter && key !in s.claims
    case Release(a, reply) => s.attempts[a].key == key && reply == FailedBefore
    case _ => false
  }

  lemma DeciderBefore(s: State, step: Step, a: AttemptId)
    requires Enabled(s, step) && a in Apply(s, step).attempts && Decides(Apply(s, step).attempts[a].phase)
    ensures a in s.attempts && s.attempts[a].key == Apply(s, step).attempts[a].key
    ensures Decides(s.attempts[a].phase) || (step == Claim(a, Done) && s.attempts[a].key !in s.claims)
  {
  }

  lemma DeciderAfter(s: State, step: Step, a: AttemptId)
    requires Enabled(s, step) && a in s.attempts && Decides(s.attempts[a].phase)
    ensures a in Apply(s, step).attempts && Apply(s, step).attempts[a].key == s.attempts[a].key
    ensures Decides(Apply(s, step).attempts[a].phase) <==>
            !(step.Crash? && step.a == a) && !(step.Release? && step.a == a) &&
            !(step.Resolve? && step.a == a && step.resolution != UdbFailed)
  {
  }

  lemma OneDecider(s: State, a: AttemptId, b: AttemptId)
    requires Exclusive(s) && a in s.attempts && b in s.attempts && s.attempts[a].key == s.attempts[b].key
    requires Decides(s.attempts[a].phase) && Decides(s.attempts[b].phase)
    ensures a == b
  {
    assert Coherent(s.attempts[a]) && Coherent(s.attempts[b]);
  }

  lemma EnteredAfter(s: State, step: Step, key: Key)
    requires Enabled(s, step) && !LearnsRecipients(s, step, key)
    requires step.Resolve? && s.attempts[step.a].key == key ==> !s.attempts[step.a].entered
    ensures Entered(Apply(s, step), key) == Entered(s, key)
  {
  }

  lemma BlockedStays(s: State, step: Step, key: Key)
    requires Blocked(s, key) && Enabled(s, step)
    ensures Blocked(Apply(s, step), key) && Entered(Apply(s, step), key) == Entered(s, key)
    ensures !LearnsRecipients(s, step, key) && !Suppresses(s, step, key)
  {
    hide Apply, Entered;
    ClaimsAfter(s, step, key);
    forall a | a in Apply(s, step).attempts && Decides(Apply(s, step).attempts[a].phase)
      ensures Apply(s, step).attempts[a].key != key
    {
      DeciderBefore(s, step, a);
    }
    EnteredAfter(s, step, key);
  }

  lemma {:induction false} BlockedForever(s: State, more: seq<Step>, key: Key)
    requires Blocked(s, key) && From(s, more).Some?
    ensures Blocked(From(s, more).value, key) && Entered(From(s, more).value, key) == Entered(s, key)
    decreases |more|
  {
    if more != [] {
      var init := more[..|more| - 1];
      BlockedForever(s, init, key);
      BlockedStays(From(s, init).value, more[|more| - 1], key);
    }
  }

  /** A step blocks a key exactly when it learns the key's recipients or suppresses the key. */
  lemma BlocksIff(s: State, step: Step, key: Key)
    requires Exclusive(s) && Enabled(s, step) && !Blocked(s, key)
    ensures Blocked(Apply(s, step), key) <==> LearnsRecipients(s, step, key) || Suppresses(s, step, key)
  {
    hide Apply;
    if key in s.claims {
      BlocksClaimedIff(s, step, key);
    } else {
      BlocksUnclaimedIff(s, step, key);
    }
  }

  lemma BlocksClaimedIff(s: State, step: Step, key: Key)
    requires Exclusive(s) && Enabled(s, step) && !Blocked(s, key) && key in s.claims
    ensures Blocked(Apply(s, step), key) <==> LearnsRecipients(s, step, key) || Suppresses(s, step, key)
  {
    hide Apply, Exclusive;
    var a :| a in s.attempts && s.attempts[a].key == key && Decides(s.attempts[a].phase);
    DeciderAfter(s, step, a);
    ClaimsAfter(s, step, key);
    forall b | b in s.attempts && s.attempts[b].key == key && Decides(s.attempts[b].phase)
      ensures b == a
    {
      OneDecider(s, a, b);
    }
    forall b | b in Apply(s, step).attempts && Decides(Apply(s, step).attempts[b].phase)
      ensures Apply(s, step).attempts[b].key == key ==> b == a
    {
      DeciderBefore(s, step, b);
    }
    ReleaseDeletes(s, step, key);
  }

  lemma ReleaseDeletes(s: State, step: Step, key: Key)
    requires Enabled(s, step)
    ensures step.Release? && s.attempts[step.a].key == key && step.reply != FailedBefore ==>
              key !in Apply(s, step).claims
  {
  }

  lemma BlocksUnclaimedIff(s: State, step: Step, key: Key)
    requires Exclusive(s) && Enabled(s, step) && key !in s.claims
    ensures Blocked(Apply(s, step), key) <==> LearnsRecipients(s, step, key) || Suppresses(s, step, key)
  {
    if step.Claim? && s.attempts[step.a].key == key {
      assert step.a in Apply(s, step).attempts && Apply(s, step).attempts[step.a].key == key;
    }
  }

  /** A crash blocks a key that was not blocked exactly when it falls between the claim and the
      lookup's answer, or before a release. */
  lemma CrashBlocksIff(s: State, a: AttemptId)
    requires Exclusive(s) && Enabled(s, Crash(a)) && !Blocked(s, s.attempts[a].key)
    ensures Blocked(Apply(s, Crash(a)), s.attempts[a].key) <==> At(s, a, Claimed) || At(s, a, Releasing)
  {
    BlocksIff(s, Crash(a), s.attempts[a].key);
  }

  // ----- copies -----

  /** The attempt may still claim its key, or has, and has no answer yet. */
  predicate Ready(p: Phase) {
    p.Delivered? || p.Claimed?
  }

  ghost predicate IsCopy(s: State, m: MessageId, key: Key) {
    m in s.messages && s.messages[m].key == key && s.messages[m].status != Gone
  }

  ghost predicate IsReady(s: State, a: AttemptId, key: Key) {
    a in s.attempts && s.attempts[a].key == key && Ready(s.attempts[a].phase)
  }

  /** A message of the key is left, or an attempt works on one. */
  ghost predicate HasCopy(s: State, key: Key) {
    (exists m :: IsCopy(s, m, key)) || (exists a :: IsReady(s, a, key))
  }

  /** The key cannot be sent unless it is published again. */
  ghost predicate Stuck(s: State, key: Key) {
    Blocked(s, key) || !HasCopy(s, key)
  }

  /** The step makes the broker forget message `m`. */
  predicate Takes(s: State, step: Step, m: MessageId)
    requires Enabled(s, step)
  {
    step.Settle? && s.attempts[step.a].message == m && Holds(s, step.a) &&
    Settled(s.attempts[step.a].phase, step.reply) == Gone
  }

  /** Attempt `a` crashes, is refused the claim, or has its answer. */
  predicate Leaves(s: State, step: Step, a: AttemptId)
    requires Enabled(s, step)
  {
    match step
    case Crash(b) => b == a
    case Resolve(b, _) => b == a
    case Claim(b, reply) => b == a && (reply != Done || s.attempts[b].key in s.claims)
    case _ => false
  }

  lemma CopiesAfter(s: State, step: Step, key: Key, m: MessageId)
    requires Enabled(s, step)
    ensures IsCopy(Apply(s, step), m, key) ==> IsCopy(s, m, key) || (Publishes(step, key) && step.message == m)
    ensures IsCopy(s, m, key) && !Takes(s, step, m) ==> IsCopy(Apply(s, step), m, key)
    ensures IsCopy(s, m, key) && Takes(s, step, m) ==> !IsCopy(Apply(s, step), m, key)
    ensures Publishes(step, key) ==> IsCopy(Apply(s, step), step.message, key)
  {
  }

  lemma ReadyAfter(s: State, step: Step, key: Key, a: AttemptId)
    requires Enabled(s, step)
    ensures IsReady(Apply(s, step), a, key) ==>
              IsReady(s, a, key) || (step.Deliver? && IsCopy(s, step.message, key) && !Takes(s, step, step.message))
    ensures IsReady(s, a, key) && !Leaves(s, step, a) ==> IsReady(Apply(s, step), a, key)
    ensures IsReady(s, a, key) && Leaves(s, step, a) ==> !IsReady(Apply(s, step), a, key)
  {
  }

  lemma NoCopyStays(s: State, step: Step, key: Key)
    requires Exclusive(s) && Enabled(s, step) && !HasCopy(s, key) && !Publishes(step, key)
    ensures !HasCopy(Apply(s, step), key) && Entered(Apply(s, step), key) == Entered(s, key)
    ensures !LearnsRecipients(s, step, key)
  {
    hide Apply, Entered;
    forall m
      ensures !IsCopy(Apply(s, step), m, key)
    {
      CopiesAfter(s, step, key, m);
    }
    forall a
      ensures !IsReady(Apply(s, step), a, key)
    {
      ReadyAfter(s, step, key, a);
    }
    if step.Resolve? {
      assert Coherent(s.attempts[step.a]) && !IsReady(s, step.a, key);
    }
    EnteredAfter(s, step, key);
  }

  lemma StuckStays(s: State, step: Step, key: Key)
    requires Exclusive(s) && Enabled(s, step) && Stuck(s, key) && !Publishes(step, key)
    ensures Stuck(Apply(s, step), key) && Entered(Apply(s, step), key) == Entered(s, key)
    ensures !LearnsRecipients(s, step, key)
  {
    hide Apply, Enabled, Exclusive, HasCopy, Entered, LearnsRecipients;
    if Blocked(s, key) {
      BlockedStays(s, step, key);
    } else {
      NoCopyStays(s, step, key);
    }
  }

  // ----- when a key can still be sent -----

  /** No step publishes the key. */
  ghost predicate Silent(steps: seq<Step>, key: Key) {
    forall step :: step in steps ==> !Publishes(step, key)
  }

  lemma FreshId(ids: set<nat>) returns (n: nat)
    ensures forall i :: i in ids ==> i < n
  {
    if ids == {} {
      n := 0;
    } else {
      var i :| i in ids;
      var rest := FreshId(ids - {i});
      assert forall j :: j in ids ==> j == i || j in ids - {i};
      n := if i < rest then rest else i + 1;
    }
  }

  lemma StartOfRun(s: State)
    ensures From(s, []) == Some(s)
  {
  }

  lemma OneMore(s: State, steps: seq<Step>, step: Step)
    requires From(s, steps).Some? && Enabled(From(s, steps).value, step)
    ensures From(s, steps + [step]) == Some(Apply(From(s, steps).value, step))
    ensures forall key :: Silent(steps, key) && !Publishes(step, key) ==> Silent(steps + [step], key)
  {
    assert (steps + [step])[..|steps|] == steps;
  }

  /** A message that is not gone can be brought back into the queue. */
  lemma Requeued(s: State, steps: seq<Step>, m: MessageId, key: Key) returns (more: seq<Step>)
    requires From(s, steps).Some? && Silent(steps, key)
    requires Linked(From(s, steps).value) && IsCopy(From(s, steps).value, m, key)
    ensures From(s, more).Some? && Silent(more, key) && InQueue(From(s, more).value, m, key)
    ensures From(s, more).value.attempts == From(s, steps).value.attempts
    ensures From(s, more).value.claims == From(s, steps).value.claims
  {
    hide From, Silent;
    match From(s, steps).value.messages[m].status
    case Queued => more := steps;
    case Unacked =>
      OneMore(s, steps, Redeliver(m));
      more := steps + [Redeliver(m)];
    case Held(b) =>
      assert HeldBy(From(s, steps).value, m, b);
      OneMore(s, steps, LoseChannel(b));
      more := steps + [LoseChannel(b)];
  }

  /** An unclaimed key with a copy gets claimed by an attempt that has not entered the loop. */
  lemma ClaimsCopy(s: State, steps: seq<Step>, key: Key) returns (more: seq<Step>, a: AttemptId)
    requires From(s, steps).Some? && Silent(steps, key)
    requires Linked(From(s, steps).value) && Exclusive(From(s, steps).value)
    requires HasCopy(From(s, steps).value, key) && key !in From(s, steps).value.claims
    ensures From(s, more).Some? && Silent(more, key) && At(From(s, more).value, a, Claimed)
    ensures From(s, more).value.attempts[a].key == key && a !in Entered(From(s, steps).value, key)
  {
    hide From, Silent;
    var t := From(s, steps).value;
    if b :| IsReady(t, b, key) {
      a := b;
      assert Coherent(t.attempts[a]);
      OneMore(s, steps, Claim(a, Done));
      more := steps + [Claim(a, Done)];
    } else {
      var m :| IsCopy(t, m, key);
      var queued := Requeued(s, steps, m, key);
      a := FreshId(t.attempts.Keys);
      OneMore(s, queued, Deliver(m, a));
      OneMore(s, queued + [Deliver(m, a)], Claim(a, Done));
      more := queued + [Deliver(m, a)] + [Claim(a, Done)];
    }
  }

  lemma ReleaseKeepsCopy(s: State, a: AttemptId)
    requires At(s, a, Releasing) && Exclusive(s) && HasCopy(s, s.attempts[a].key)
    ensures var s', key := Apply(s, Release(a, Done)), s.attempts[a].key;
            HasCopy(s', key) && key !in s'.claims && Entered(s', key) == Entered(s, key)
  {
    var s', key := Apply(s, Release(a, Done)), s.attempts[a].key;
    if m :| IsCopy(s, m, key) {
      assert IsCopy(s', m, key);
    } else {
      var b :| IsReady(s, b, key);
      assert IsReady(s', b, key);
    }
  }

  /** A key that is not stuck gets claimed. */
  lemma GetsClaimed(s: State, key: Key) returns (more: seq<Step>, a: AttemptId)
    requires Exclusive(s) && Linked(s) && !Stuck(s, key)
    ensures From(s, more).Some? && Silent(more, key) && At(From(s, more).value, a, Claimed)
    ensures From(s, more).value.attempts[a].key == key && a !in Entered(s, key)
  {
    hide From, Linked, HasCopy, Exclusive, Apply;
    StartOfRun(s);
    if key !in s.claims {
      more, a := ClaimsCopy(s, [], key);
    } else {
      a :| a in s.attempts && s.attempts[a].key == key && Decides(s.attempts[a].phase);
      DeciderHasNotEntered(s, a);
      if s.attempts[a].phase.Claimed? {
        more := [];
      } else {
        OneMore(s, [], Release(a, Done));
        ReleaseKeepsCopy(s, a);
        StepKeepsExclusive(s, Release(a, Done));
        StepKeepsLinked(s, Release(a, Done));
        more, a := ClaimsCopy(s, [] + [Release(a, Done)], key);
      }
    }
  }

  lemma DeciderHasNotEntered(s: State, a: AttemptId)
    requires Exclusive(s) && a in s.attempts && Decides(s.attempts[a].phase)
    ensures a !in Entered(s, s.attempts[a].key)
  {
    assert Coherent(s.attempts[a]);
  }

  lemma {:induction false} StuckForever(s: State, more: seq<Step>, key: Key)
    requires Exclusive(s) && Stuck(s, key) && From(s, more).Some? && Silent(more, key)
    ensures Exclusive(From(s, more).value) && Stuck(From(s, more).value, key)
    ensures Entered(From(s, more).value, key) == Entered(s, key)
    decreases |more|
  {
    hide Apply, Enabled, Exclusive, Stuck, Entered;
    if more != [] {
      var init, step := more[..|more| - 1], more[|more| - 1];
      StuckForever(s, init, key);
      StepKeepsExclusive(From(s, init).value, step);
      StuckStays(From(s, init).value, step, key);
    }
  }

  /** Without publishing the key again, some continuation makes a further attempt enter the enqueue
      loop exactly when the key is not blocked and a copy of it is left. */
  lemma StillSentIff(s: State, key: Key)
    requires Exclusive(s) && Linked(s)
    ensures (exists more :: Silent(more, key) && From(s, more).Some? &&
               Entered(From(s, more).value, key) != Entered(s, key)) <==>
            !Blocked(s, key) && HasCopy(s, key)
  {
    hide From, Entered, Exclusive, Linked, Silent, HasCopy;
    if more :| Silent(more, key) && From(s, more).Some? && Entered(From(s, more).value, key) != Entered(s, key) {
      if Stuck(s, key) {
        StuckForever(s, more, key);
      }
    }
    if !Stuck(s, key) {
      var claimed, a := GetsClaimed(s, key);
      var more := EntersLoop(s, claimed, a, key);
    }
  }

  lemma EntersLoop(s: State, claimed: seq<Step>, a: AttemptId, key: Key) returns (more: seq<Step>)
    requires From(s, claimed).Some? && Silent(claimed, key) && At(From(s, claimed).value, a, Claimed)
    requires From(s, claimed).value.attempts[a].key == key && a !in Entered(s, key)
    ensures Silent(more, key) && From(s, more).Some? && At(From(s, more).value, a, Enqueueing(1))
    ensures From(s, more).value.attempts[a].key == key
    ensures Entered(From(s, more).value, key) != Entered(s, key)
  {
    hide From, Silent;
    OneMore(s, claimed, Resolve(a, Recipients(1)));
    more := claimed + [Resolve(a, Recipients(1))];
    assert a in Entered(From(s, more).value, key);
  }

  // ----- when a key can still be handled in full -----

  /** The attempt put an event for every recipient into the batcher, or found that there is nothing to
      send. */
  predicate Complete(p: Phase) {
    Reached(p) == Enqueueing(0) || Finishes(Reached(p))
  }

  ghost predicate Handled(s: State, key: Key) {
    exists a :: a in s.attempts && s.attempts[a].key == key && Complete(s.attempts[a].phase)
  }

  /** The attempt has handled its key or is in the loop that does. */
  predicate Fulfils(p: Phase) {
    p.Enqueueing? || Complete(p)
  }

  ghost predicate Fulfilling(s: State, a: AttemptId, key: Key) {
    a in s.attempts && s.attempts[a].key == key && Fulfils(s.attempts[a].phase)
  }

  ghost predicate InHand(s: State, key: Key) {
    exists a :: Fulfilling(s, a, key)
  }

  /** A crash inside the loop, with recipients left. */
  ghost predicate CutsShort(s: State, step: Step, key: Key)
    requires Enabled(s, step)
  {
    && step.Crash? && s.attempts[step.a].key == key
    && s.attempts[step.a].phase.Enqueueing? && s.attempts[step.a].phase.left > 0
  }

  lemma InHandIsBlocked(s: State, key: Key)
    requires Exclusive(s) && InHand(s, key)
    ensures Blocked(s, key)
  {
    var a :| Fulfilling(s, a, key);
    assert Coherent(s.attempts[a]);
  }

  /** Only learning the recipients puts a key into an attempt's hands. */
  lemma FulfillingBefore(s: State, step: Step, a: AttemptId, key: Key)
    requires Enabled(s, step) && Fulfilling(Apply(s, step), a, key)
    ensures LearnsRecipients(s, step, key) || Fulfilling(s, a, key)
    ensures !(CutsShort(s, step, key) && step.a == a)
  {
  }

  lemma FulfillingStays(s: State, step: Step, a: AttemptId, key: Key)
    requires Enabled(s, step) && Fulfilling(s, a, key) && !CutsShort(s, step, key)
    ensures Fulfilling(Apply(s, step), a, key)
  {
  }

  lemma LearningFulfils(s: State, step: Step, key: Key)
    requires Enabled(s, step) && LearnsRecipients(s, step, key)
    ensures Fulfilling(Apply(s, step), step.a, key)
  {
  }

  lemma OneFulfils(s: State, a: AttemptId, b: AttemptId, key: Key)
    requires Exclusive(s) && Fulfilling(s, a, key) && Fulfilling(s, b, key)
    ensures a == b
  {
    assert Coherent(s.attempts[a]) && Coherent(s.attempts[b]);
  }

  lemma InHandAfter(s: State, step: Step, key: Key)
    requires Exclusive(s) && Enabled(s, step)
    ensures InHand(Apply(s, step), key) <==>
            LearnsRecipients(s, step, key) || (InHand(s, key) && !CutsShort(s, step, key))
  {
    hide Apply, Enabled, Exclusive, Fulfilling;
    if a :| Fulfilling(Apply(s, step), a, key) {
      FulfillingBefore(s, step, a, key);
      if CutsShort(s, step, key) {
        CutIsFulfilling(s, step, key);
        OneFulfils(s, a, step.a, key);
      }
    }
    if LearnsRecipients(s, step, key) {
      LearningFulfils(s, step, key);
      assert InHand(Apply(s, step), key);
    } else if InHand(s, key) && !CutsShort(s, step, key) {
      var a :| Fulfilling(s, a, key);
      FulfillingStays(s, step, a, key);
    }
  }

  lemma CutIsFulfilling(s: State, step: Step, key: Key)
    requires Enabled(s, step) && CutsShort(s, step, key)
    ensures Fulfilling(s, step.a, key)
  {
  }

  /** The key can still be handled in full, or has been. */
  ghost predicate Alive(s: State, key: Key) {
    InHand(s, key) || !Stuck(s, key)
  }

  lemma {:induction false} NotAliveForever(s: State, more: seq<Step>, key: Key)
    requires Exclusive(s) && !Alive(s, key) && From(s, more).Some? && Silent(more, key)
    ensures Exclusive(From(s, more).value) && !Alive(From(s, more).value, key)
    decreases |more|
  {
    hide Apply, Enabled, Exclusive, Stuck, InHand;
    if more != [] {
      var init, step := more[..|more| - 1], more[|more| - 1];
      NotAliveForever(s, init, key);
      var t := From(s, init).value;
      StepKeepsExclusive(t, step);
      StuckStays(t, step, key);
      InHandAfter(t, step, key);
    }
  }

  /** The rest of the loop. */
  lemma {:induction false} LoopEnds(s: State, steps: seq<Step>, a: AttemptId, left: nat, key: Key)
    returns (more: seq<Step>)
    requires From(s, steps).Some? && Silent(steps, key) && At(From(s, steps).value, a, Enqueueing(left))
    requires From(s, steps).value.attempts[a].key == key
    ensures From(s, more).Some? && Silent(more, key) && Handled(From(s, more).value, key)
    decreases left
  {
    hide From, Silent;
    if left == 0 {
      more := steps;
    } else {
      OneMore(s, steps, EnqueueNext(a));
      more := LoopEnds(s, steps + [EnqueueNext(a)], a, left - 1, key);
    }
  }

  lemma AliveIsHandled(s: State, key: Key) returns (more: seq<Step>)
    requires Exclusive(s) && Linked(s) && Alive(s, key)
    ensures From(s, more).Some? && Silent(more, key) && Handled(From(s, more).value, key)
  {
    hide From, Linked, Exclusive, Stuck;
    StartOfRun(s);
    if a :| Fulfilling(s, a, key) {
      if s.attempts[a].phase.Enqueueing? {
        more := LoopEnds(s, [], a, s.attempts[a].phase.left, key);
      } else {
        more := [];
      }
    } else {
      var claimed, a := GetsClaimed(s, key);
      var entered := EntersLoop(s, claimed, a, key);
      more := LoopEnds(s, entered, a, 1, key);
    }
  }

  /** Without publishing the key again, some continuation handles it in full exactly when an attempt
      has handled it or is in the loop, or the key is not blocked and a copy of it is left. */
  lemma StillHandledIff(s: State, key: Key)
    requires Exclusive(s) && Linked(s)
    ensures (exists more :: Silent(more, key) && From(s, more).Some? && Handled(From(s, more).value, key)) <==>
            InHand(s, key) || (!Blocked(s, key) && HasCopy(s, key))
  {
    hide From, Exclusive, Linked, Silent, HasCopy;
    if more :| Silent(more, key) && From(s, more).Some? && Handled(From(s, more).value, key) {
      if !Alive(s, key) {
        NotAliveForever(s, more, key);
        HandledIsAlive(From(s, more).value, key);
      }
    }
    if Alive(s, key) {
      var more := AliveIsHandled(s, key);
    }
  }

  lemma HandledIsAlive(s: State, key: Key)
    requires Handled(s, key)
    ensures Alive(s, key)
  {
    var a :| a in s.attempts && s.attempts[a].key == key && Complete(s.attempts[a].phase);
    assert Fulfilling(s, a, key);
  }

  // ----- what loses a key -----

  /** The key was published, and it is never handled in full unless it is published again. */
  ghost predicate Lost(s: State, key: Key) {
    Published(s, key) && !Alive(s, key)
  }

  ghost predicate NoOtherMessage(s: State, key: Key, m: MessageId) {
    forall n :: IsCopy(s, n, key) ==> n == m
  }

  ghost predicate NoMessage(s: State, key: Key) {
    forall n :: !IsCopy(s, n, key)
  }

  ghost predicate NoOtherReady(s: State, key: Key, a: AttemptId) {
    forall b :: IsReady(s, b, key) ==> b == a
  }

  /** The last copy of the key goes: its last message is dropped as a duplicate, or the only attempt
      working on it gives up when the broker has no message of the key any more. */
  ghost predicate DropsLastCopy(s: State, step: Step, key: Key)
    requires Enabled(s, step)
  {
    match step
    case Settle(a, reply) =>
      && s.attempts[a].key == key && s.attempts[a].phase.Duplicate? && reply != FailedBefore && Holds(s, a)
      && NoOtherMessage(s, key, s.attempts[a].message) && forall b :: !IsReady(s, b, key)
    case Crash(a) =>
      s.attempts[a].key == key && s.attempts[a].phase.Delivered? && NoMessage(s, key) && NoOtherReady(s, key, a)
    case Claim(a, reply) =>
      && s.attempts[a].key == key && (reply == FailedBefore || key in s.claims)
      && NoMessage(s, key) && NoOtherReady(s, key, a)
    case Resolve(a, resolution) =>
      s.attempts[a].key == key && resolution == UdbFailed && NoMessage(s, key) && NoOtherReady(s, key, a)
    case _ => false
  }

  lemma CopyAfter(s: State, step: Step, key: Key)
    requires Exclusive(s) && Linked(s) && Enabled(s, step) && !Blocked(s, key) && HasCopy(s, key)
    requires !LearnsRecipients(s, step, key) && !Suppresses(s, step, key)
    ensures HasCopy(Apply(s, step), key) <==> !DropsLastCopy(s, step, key)
  {
    hide Apply, Exclusive, Linked, Blocked;
    if m :| IsCopy(s, m, key) && !Takes(s, step, m) {
      CopiesAfter(s, step, key, m);
    } else if a :| IsReady(s, a, key) && !Leaves(s, step, a) {
      ReadyAfter(s, step, key, a);
    } else {
      forall m
        ensures IsCopy(Apply(s, step), m, key) ==> Publishes(step, key)
      {
        CopiesAfter(s, step, key, m);
      }
      forall a
        ensures !IsReady(Apply(s, step), a, key)
      {
        ReadyAfter(s, step, key, a);
      }
      LastCopyIsDropped(s, step, key);
    }
  }

  lemma LastCopyIsDropped(s: State, step: Step, key: Key)
    requires Exclusive(s) && Linked(s) && Enabled(s, step) && !Blocked(s, key) && HasCopy(s, key)
    requires !LearnsRecipients(s, step, key) && !Suppresses(s, step, key)
    requires forall m :: IsCopy(s, m, key) ==> Takes(s, step, m)
    requires forall a :: IsReady(s, a, key) ==> Leaves(s, step, a)
    ensures DropsLastCopy(s, step, key) && !Publishes(step, key)
  {
    if m :| IsCopy(s, m, key) {
      assert Takes(s, step, m);
      if Finishes(s.attempts[step.a].phase) {
        assert Fulfilling(s, step.a, key);
        InHandIsBlocked(s, key);
      }
    } else {
      var a :| IsReady(s, a, key);
      assert Leaves(s, step, a);
    }
  }

  /** The key becomes lost. */
  ghost predicate Loses(s: State, step: Step, key: Key)
    requires Enabled(s, step)
  {
    || CutsShort(s, step, key)
    || (!Blocked(s, key) && HasCopy(s, key) && (Suppresses(s, step, key) || DropsLastCopy(s, step, key)))
  }

  /** A new message for a key that is not blocked. */
  ghost predicate Revives(s: State, step: Step, key: Key) {
    Publishes(step, key) && !Blocked(s, key)
  }

  lemma BlockedAfter(s: State, step: Step, key: Key)
    requires Exclusive(s) && Enabled(s, step)
    ensures Blocked(Apply(s, step), key) <==>
            Blocked(s, key) || LearnsRecipients(s, step, key) || Suppresses(s, step, key)
  {
    hide Apply, Enabled, Exclusive, Blocked, LearnsRecipients, Suppresses;
    if Blocked(s, key) {
      BlockedStays(s, step, key);
    } else {
      BlocksIff(s, step, key);
    }
  }

  /** Before it is published, a key has no attempt, no claim and no copy. */
  lemma UnpublishedIsUntouched(s: State, step: Step, key: Key)
    requires Linked(s) && Enabled(s, step) && !Published(s, key)
    ensures !Blocked(s, key) && !HasCopy(s, key) && !InHand(s, key)
    ensures !CutsShort(s, step, key) && !Suppresses(s, step, key)
  {
    forall a | a in s.attempts
      ensures s.attempts[a].key != key
    {
      assert s.attempts[a].message in s.messages;
    }
  }

  /** Every step, both ways: a key is lost after it exactly when the step loses it, or it was lost
      and is not revived. */
  lemma LosesIff(s: State, step: Step, key: Key)
    requires Exclusive(s) && Linked(s) && Enabled(s, step)
    ensures Lost(Apply(s, step), key) <==>
            (Lost(s, key) && !Revives(s, step, key)) || Loses(s, step, key)
  {
    hide Apply, Enabled, Exclusive, Linked, Blocked, HasCopy, InHand, Published, LearnsRecipients, Suppresses,
      CutsShort, DropsLastCopy, Publishes;
    PublishedAfter(s, step, key);
    InHandAfter(s, step, key);
    BlockedAfter(s, step, key);
    if InHand(s, key) {
      InHandIsBlocked(s, key);
    }
    if !Published(s, key) {
      UnpublishedIsUntouched(s, step, key);
    }
    if Publishes(step, key) {
      PublishingIsPlain(s, step, key);
    } else if Blocked(s, key) {
      BlockedStays(s, step, key);
    } else if !HasCopy(s, key) {
      NoCopyStays(s, step, key);
    }
    if CutsShort(s, step, key) {
      CutIsInHand(s, step, key);
    }
    if LearnsRecipients(s, step, key) {
      LearningLosesNothing(s, step, key);
    }
    if HasCopy(s, key) && !Blocked(s, key) && !LearnsRecipients(s, step, key) && !Suppresses(s, step, key) {
      CopyAfter(s, step, key);
    }
  }

  lemma PublishingIsPlain(s: State, step: Step, key: Key)
    requires Enabled(s, step) && Publishes(step, key)
    ensures HasCopy(Apply(s, step), key)
    ensures !CutsShort(s, step, key) && !Suppresses(s, step, key) && !LearnsRecipients(s, step, key)
    ensures !DropsLastCopy(s, step, key)
  {
    CopiesAfter(s, step, key, step.message);
  }

  lemma LearningLosesNothing(s: State, step: Step, key: Key)
    requires Enabled(s, step) && LearnsRecipients(s, step, key)
    ensures !CutsShort(s, step, key) && !Suppresses(s, step, key) && !DropsLastCopy(s, step, key)
  {
  }

  lemma CutIsInHand(s: State, step: Step, key: Key)
    requires Enabled(s, step) && CutsShort(s, step, key)
    ensures InHand(s, key) && !LearnsRecipients(s, step, key)
  {
    CutIsFulfilling(s, step, key);
  }

  // ----- over whole runs -----

  ghost predicate LosesAt(steps: seq<Step>, i: nat, key: Key) {
    && i < |steps| && Run(steps[..i]).Some? && Enabled(Run(steps[..i]).value, steps[i])
    && Loses(Run(steps[..i]).value, steps[i], key)
  }

  ghost predicate RevivesAt(steps: seq<Step>, i: nat, key: Key) {
    i < |steps| && Run(steps[..i]).Some? && Revives(Run(steps[..i]).value, steps[i], key)
  }

  /** Step `i` lost the key, and no later step revived it. */
  ghost predicate LostSince(steps: seq<Step>, i: nat, key: Key) {
    LosesAt(steps, i, key) && forall j: nat :: i < j ==> !RevivesAt(steps, j, key)
  }

  /** What happened before the last step does not depend on it. */
  lemma BeforeLast(steps: seq<Step>, i: nat, key: Key)
    requires steps != []
    ensures var init := steps[..|steps| - 1];
            && (i < |init| ==> LosesAt(steps, i, key) == LosesAt(init, i, key))
            && (i < |init| ==> RevivesAt(steps, i, key) == RevivesAt(init, i, key))
            && (i >= |init| ==> !LosesAt(init, i, key) && !RevivesAt(init, i, key))
            && (i > |init| ==> !LosesAt(steps, i, key) && !RevivesAt(steps, i, key))
  {
    hide Run, Enabled, Loses, Revives;
    var init := steps[..|steps| - 1];
    if i < |init| {
      assert init[..i] == steps[..i];
    }
  }

  lemma AtLast(steps: seq<Step>, key: Key)
    requires Run(steps).Some? && steps != []
    ensures var init, step := steps[..|steps| - 1], steps[|steps| - 1];
            && Run(init).Some? && Enabled(Run(init).value, step)
            && Run(steps).value == Apply(Run(init).value, step)
            && (LosesAt(steps, |init|, key) <==> Loses(Run(init).value, step, key))
            && (RevivesAt(steps, |init|, key) <==> Revives(Run(init).value, step, key))
  {
    hide Enabled, Apply, Loses, Revives;
  }

  /** In every run a key is lost exactly when some step of the run lost it and no later one revived
      it. */
  lemma {:induction false} LostIff(steps: seq<Step>, key: Key)
    requires Run(steps).Some?
    ensures Lost(Run(steps).value, key) <==> exists i: nat :: LostSince(steps, i, key)
  {
    hide Run, Apply, Enabled, Loses, Revives, Lost, LosesAt, RevivesAt, Exclusive, Linked;
    if steps == [] {
      NothingLostAtStart(key);
    } else {
      var init, step := steps[..|steps| - 1], steps[|steps| - 1];
      AtLast(steps, key);
      LostIff(init, key);
      EveryRunIsExclusive(init);
      EveryRunIsLinked(init);
      LosesIff(Run(init).value, step, key);
      forall i: nat
        ensures LosesAt(steps, i, key) <==>
                if i == |init| then Loses(Run(init).value, step, key) else LosesAt(init, i, key)
        ensures RevivesAt(steps, i, key) <==>
                if i == |init| then Revives(Run(init).value, step, key) else RevivesAt(init, i, key)
        ensures LosesAt(init, i, key) || RevivesAt(init, i, key) ==> i < |init|
      {
        BeforeLast(steps, i, key);
      }
      forall i: nat
        ensures LostSince(steps, i, key) <==>
                if i == |init| then Loses(Run(init).value, step, key)
                else LostSince(init, i, key) && !Revives(Run(init).value, step, key)
      {
        assert RevivesAt(steps, |init|, key) <==> Revives(Run(init).value, step, key);
      }
      assert Loses(Run(init).value, step, key) ==> LostSince(steps, |init|, key);
    }
  }

  lemma NothingLostAtStart(key: Key)
    ensures Run([]) == Some(START) && !Lost(START, key)
    ensures forall i: nat :: !LosesAt([], i, key)
  {
  }

  /** In a run without crashes, lost channels and failed settlements no key is lost. */
  lemma CalmRunLosesNoKey(steps: seq<Step>, key: Key)
    requires Run(steps).Some? && forall step :: step in steps ==> Calm(step)
    ensures !Lost(Run(steps).value, key)
  {
    hide Run;
    CalmRunLosesNothing(steps);
    if Published(Run(steps).value, key) {
      NothingLostIsAlive(Run(steps).value, key);
    }
  }

  lemma NothingLostIsAlive(s: State, key: Key)
    requires NothingLost(s) && Published(s, key)
    ensures Alive(s, key)
  {
    if key in s.claims {
      var a :| Carries(s, a, key);
      if Decides(s.attempts[a].phase) {
        assert IsCopy(s, s.attempts[a].message, key);
      } else {
        assert Fulfilling(s, a, key);
      }
    } else if m :| InQueue(s, m, key) {
      assert IsCopy(s, m, key);
    } else {
      var a :| WaitsWith(s, a, key);
      assert IsCopy(s, s.attempts[a].message, key);
    }
  }
}
