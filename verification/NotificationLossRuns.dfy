/** Short runs in which a notification is lost: a failed claim that took effect, a failed release, a
    crash on entering the enqueue loop, and a lost channel alone. */
module NotificationLossRuns {
  import opened Prelude
  import opened NotificationEngine
  import opened NotificationLoss

  /** The message is back in the queue, and its key is lost. */
  ghost predicate LostInQueue(steps: seq<Step>, m: MessageId, key: Key) {
    Run(steps).Some? && InQueue(Run(steps).value, m, key) && Lost(Run(steps).value, key)
  }

  /** One message, one attempt. */
  function One(key: Key, status: Status, first: Phase, owns: bool, entered: bool, claims: set<Key>): State {
    State(map[0 := Message(key, status)], map[0 := Attempt(0, key, first, owns, entered)], claims)
  }

  /** One message, two attempts, the first of which has not entered the loop. */
  function Two(key: Key, status: Status, first: Phase, owns: bool, second: Phase, claims: set<Key>): State {
    State(map[0 := Message(key, status)],
          map[0 := Attempt(0, key, first, owns, false), 1 := Attempt(0, key, second, false, false)], claims)
  }

  predicate Leads(s: State, step: Step, s': State) {
    Enabled(s, step) && Apply(s, step) == s'
  }

  /** One more step of a run from the start. */
  lemma Then(steps: seq<Step>, s: State, step: Step, s': State)
    requires Run(steps) == Some(s) && Leads(s, step, s')
    ensures Run(steps + [step]) == Some(s')
  {
    hide Enabled, Apply;
    OneMore(START, steps, step);
  }

  lemma FirstDelivery(key: Key)
    ensures var queued := State(map[0 := Message(key, Queued)], map[], {});
            && Leads(START, Publish(0, key), queued)
            && Leads(queued, Deliver(0, 0), One(key, Held(0), Delivered, false, false, {}))
  {
  }

  lemma FirstClaims(key: Key)
    ensures var delivered := One(key, Held(0), Delivered, false, false, {});
            && Leads(delivered, Claim(0, Done), One(key, Held(0), Claimed, true, false, {key}))
            && Leads(delivered, Claim(0, FailedAfter), One(key, Held(0), ClaimFailed, false, false, {key}))
  {
  }

  lemma OneClaim(key: Key)
    ensures Run([Publish(0, key), Deliver(0, 0)]) == Some(One(key, Held(0), Delivered, false, false, {}))
    ensures Run([Publish(0, key), Deliver(0, 0), Claim(0, Done)]) ==
            Some(One(key, Held(0), Claimed, true, false, {key}))
  {
    hide Run, Leads, One;
    assert Run([]) == Some(START) by { NothingLostAtStart(key); }
    FirstDelivery(key);
    FirstClaims(key);
    var queued := State(map[0 := Message(key, Queued)], map[], {});
    var delivered := One(key, Held(0), Delivered, false, false, {});
    Then([], START, Publish(0, key), queued);
    assert [] + [Publish(0, key)] == [Publish(0, key)];
    Then([Publish(0, key)], queued, Deliver(0, 0), delivered);
    assert [Publish(0, key)] + [Deliver(0, 0)] == [Publish(0, key), Deliver(0, 0)];
    Then([Publish(0, key), Deliver(0, 0)], delivered, Claim(0, Done), One(key, Held(0), Claimed, true, false, {key}));
    assert [Publish(0, key), Deliver(0, 0)] + [Claim(0, Done)] == [Publish(0, key), Deliver(0, 0), Claim(0, Done)];
  }

  lemma Requeueing(key: Key, p: Phase, owns: bool)
    requires Requeues(p) && !p.Over?
    ensures var over := One(key, Queued, Over(p), owns, false, {key});
            && Leads(One(key, Held(0), p, owns, false, {key}), Settle(0, Done), over)
            && InQueue(over, 0, key) && Lost(over, key)
  {
  }

  /** The claim is set, its reply is an error, and the requeued message will be a duplicate. */
  lemma FailedClaimLoses(key: Key)
    ensures LostInQueue([Publish(0, key), Deliver(0, 0), Claim(0, FailedAfter), Settle(0, Done)], 0, key)
  {
    hide Run, Leads, One, Lost;
    OneClaim(key);
    FirstClaims(key);
    Requeueing(key, ClaimFailed, false);
    var steps, failed := [Publish(0, key), Deliver(0, 0)], One(key, Held(0), ClaimFailed, false, false, {key});
    Then(steps, One(key, Held(0), Delivered, false, false, {}), Claim(0, FailedAfter), failed);
    Then(steps + [Claim(0, FailedAfter)], failed, Settle(0, Done),
         One(key, Queued, Over(ClaimFailed), false, false, {key}));
    assert steps + [Claim(0, FailedAfter)] + [Settle(0, Done)] ==
           [Publish(0, key), Deliver(0, 0), Claim(0, FailedAfter), Settle(0, Done)];
  }

  lemma FirstIsAnswered(key: Key)
    ensures var claimed := One(key, Held(0), Claimed, true, false, {key});
            var releasing := One(key, Held(0), Releasing, true, false, {key});
            && Leads(claimed, Resolve(0, UdbFailed), releasing)
            && Leads(releasing, Release(0, FailedBefore), One(key, Held(0), Released, true, false, {key}))
            && Leads(claimed, Resolve(0, Recipients(1)), One(key, Held(0), Enqueueing(1), true, true, {key}))
  {
  }

  /** The lookup fails, and so does the release. */
  lemma FailedReleaseLoses(key: Key)
    ensures LostInQueue([Publish(0, key), Deliver(0, 0), Claim(0, Done), Resolve(0, UdbFailed),
                         Release(0, FailedBefore), Settle(0, Done)], 0, key)
  {
    hide Run, Leads, One, Lost;
    OneClaim(key);
    FirstIsAnswered(key);
    Requeueing(key, Released, true);
    var steps := [Publish(0, key), Deliver(0, 0), Claim(0, Done)];
    var releasing := One(key, Held(0), Releasing, true, false, {key});
    var released := One(key, Held(0), Released, true, false, {key});
    Then(steps, One(key, Held(0), Claimed, true, false, {key}), Resolve(0, UdbFailed), releasing);
    Then(steps + [Resolve(0, UdbFailed)], releasing, Release(0, FailedBefore), released);
    Then(steps + [Resolve(0, UdbFailed)] + [Release(0, FailedBefore)], released, Settle(0, Done),
         One(key, Queued, Over(Released), true, false, {key}));
    assert steps + [Resolve(0, UdbFailed)] + [Release(0, FailedBefore)] + [Settle(0, Done)] ==
           [Publish(0, key), Deliver(0, 0), Claim(0, Done), Resolve(0, UdbFailed),
            Release(0, FailedBefore), Settle(0, Done)];
  }

  ghost predicate LosesInRun(steps: seq<Step>, key: Key) {
    Run(steps).Some? && Lost(Run(steps).value, key)
  }

  lemma CrashInLoop(key: Key)
    ensures var over := One(key, Unacked, Over(Enqueueing(1)), true, true, {key});
            Leads(One(key, Held(0), Enqueueing(1), true, true, {key}), Crash(0), over) && Lost(over, key)
  {
    assert One(key, Unacked, Over(Enqueueing(1)), true, true, {key}).messages[0].key == key;
  }

  /** The worker crashes on entering the loop: no event was put into the batcher. */
  lemma CrashInLoopLoses(key: Key)
    ensures LosesInRun([Publish(0, key), Deliver(0, 0), Claim(0, Done), Resolve(0, Recipients(1)), Crash(0)], key)
  {
    hide Run, Leads, One, Lost;
    OneClaim(key);
    FirstIsAnswered(key);
    CrashInLoop(key);
    var steps := [Publish(0, key), Deliver(0, 0), Claim(0, Done)];
    var looping := One(key, Held(0), Enqueueing(1), true, true, {key});
    Then(steps, One(key, Held(0), Claimed, true, false, {key}), Resolve(0, Recipients(1)), looping);
    Then(steps + [Resolve(0, Recipients(1))], looping, Crash(0),
         One(key, Unacked, Over(Enqueueing(1)), true, true, {key}));
    assert steps + [Resolve(0, Recipients(1))] + [Crash(0)] ==
           [Publish(0, key), Deliver(0, 0), Claim(0, Done), Resolve(0, Recipients(1)), Crash(0)];
  }

  lemma SecondDelivery(key: Key)
    ensures var queued := One(key, Queued, Claimed, true, false, {key});
            && Leads(One(key, Held(0), Claimed, true, false, {key}), LoseChannel(0), queued)
            && Leads(queued, Deliver(0, 1), Two(key, Held(1), Claimed, true, Delivered, {key}))
  {
  }

  lemma SecondSettles(key: Key)
    ensures var duplicate := Two(key, Held(1), Claimed, true, Duplicate, {key});
            && Leads(Two(key, Held(1), Claimed, true, Delivered, {key}), Claim(1, Done), duplicate)
            && Leads(duplicate, Settle(1, Done), Two(key, Gone, Claimed, true, Over(Duplicate), {key}))
  {
  }

  /** A lost channel makes the broker deliver again; the second attempt drops its copy. */
  lemma SecondIsDropped(key: Key)
    ensures Run([Publish(0, key), Deliver(0, 0), Claim(0, Done), LoseChannel(0), Deliver(0, 1), Claim(1, Done),
                 Settle(1, Done)]) ==
            Some(Two(key, Gone, Claimed, true, Over(Duplicate), {key}))
  {
    hide Run, Leads, One, Two;
    OneClaim(key);
    SecondDelivery(key);
    SecondSettles(key);
    var steps := [Publish(0, key), Deliver(0, 0), Claim(0, Done)];
    var queued := One(key, Queued, Claimed, true, false, {key});
    var second := Two(key, Held(1), Claimed, true, Delivered, {key});
    var duplicate := Two(key, Held(1), Claimed, true, Duplicate, {key});
    Then(steps, One(key, Held(0), Claimed, true, false, {key}), LoseChannel(0), queued);
    Then(steps + [LoseChannel(0)], queued, Deliver(0, 1), second);
    Then(steps + [LoseChannel(0)] + [Deliver(0, 1)], second, Claim(1, Done), duplicate);
    Then(steps + [LoseChannel(0)] + [Deliver(0, 1)] + [Claim(1, Done)], duplicate, Settle(1, Done),
         Two(key, Gone, Claimed, true, Over(Duplicate), {key}));
    assert steps + [LoseChannel(0)] + [Deliver(0, 1)] + [Claim(1, Done)] + [Settle(1, Done)] ==
           [Publish(0, key), Deliver(0, 0), Claim(0, Done), LoseChannel(0), Deliver(0, 1), Claim(1, Done),
            Settle(1, Done)];
  }

  lemma FirstReleases(key: Key)
    ensures var releasing := Two(key, Gone, Releasing, true, Over(Duplicate), {key});
            && Leads(Two(key, Gone, Claimed, true, Over(Duplicate), {key}), Resolve(0, UdbFailed), releasing)
            && Leads(releasing, Release(0, Done), Two(key, Gone, Released, false, Over(Duplicate), {}))
  {
  }

  lemma FirstEnds(key: Key)
    ensures Leads(Two(key, Gone, Released, false, Over(Duplicate), {}), Settle(0, Done),
                  Two(key, Gone, Over(Released), false, Over(Duplicate), {}))
  {
  }

  lemma GoneIsLost(key: Key)
    ensures Lost(Two(key, Gone, Over(Released), false, Over(Duplicate), {}), key)
    ensures !Blocked(Two(key, Gone, Over(Released), false, Over(Duplicate), {}), key)
  {
    assert Two(key, Gone, Over(Released), false, Over(Duplicate), {}).messages[0].key == key;
  }

  /** Then the first attempt's lookup fails and it releases the key. Nobody crashed, every call was
      answered, and the notification is gone, although the key is free. */
  lemma LostChannelLoses(key: Key)
    ensures var steps := [Publish(0, key), Deliver(0, 0), Claim(0, Done), LoseChannel(0), Deliver(0, 1), Claim(1, Done),
                          Settle(1, Done), Resolve(0, UdbFailed), Release(0, Done), Settle(0, Done)];
            LosesInRun(steps, key) && !Blocked(Run(steps).value, key)
  {
    hide Run, Leads, Two, Lost, Blocked;
    SecondIsDropped(key);
    FirstReleases(key);
    FirstEnds(key);
    GoneIsLost(key);
    var steps := [Publish(0, key), Deliver(0, 0), Claim(0, Done), LoseChannel(0), Deliver(0, 1), Claim(1, Done),
                  Settle(1, Done)];
    var releasing := Two(key, Gone, Releasing, true, Over(Duplicate), {key});
    var released := Two(key, Gone, Released, false, Over(Duplicate), {});
    Then(steps, Two(key, Gone, Claimed, true, Over(Duplicate), {key}), Resolve(0, UdbFailed), releasing);
    Then(steps + [Resolve(0, UdbFailed)], releasing, Release(0, Done), released);
    Then(steps + [Resolve(0, UdbFailed)] + [Release(0, Done)], released, Settle(0, Done),
         Two(key, Gone, Over(Released), false, Over(Duplicate), {}));
    assert steps + [Resolve(0, UdbFailed)] + [Release(0, Done)] + [Settle(0, Done)] ==
           [Publish(0, key), Deliver(0, 0), Claim(0, Done), LoseChannel(0), Deliver(0, 1), Claim(1, Done),
            Settle(1, Done), Resolve(0, UdbFailed), Release(0, Done), Settle(0, Done)];
  }
}
