/** `process_delivery` as the worker executes it, each effect being one step of the protocol in
    `NotificationEngine`. Replies of the stores and the broker are parameters. */
module NotificationWorker {
  import opened Prelude
  import E = NotificationEngine

  datatype ClaimOutcome = Claimed | AlreadyClaimed

  datatype Lookup = InvalidEntityQid | OrgNotFound | UdbError | Members(emails: seq<string>)

  /** How the calls of one delivery are answered. */
  datatype Replies = Replies(claim: E.Reply, lookup: Lookup, release: E.Reply, settle: E.Reply)

  datatype Outcome = Enqueued | Requeued | DeadLettered

  datatype AckError = AckFailed | NackFailed

  function ResolutionOf(l: Lookup): E.Resolution {
    match l
    case InvalidEntityQid => E.InvalidQid
    case OrgNotFound => E.OrgMissing
    case UdbError => E.UdbFailed
    case Members(emails) => E.Recipients(|emails|)
  }

  /** One event of attempt `a` for each recipient, in their order. */
  function EventsFor(emails: seq<string>, a: E.AttemptId): (es: seq<(string, E.AttemptId)>)
    ensures |es| == |emails| && forall i :: 0 <= i < |emails| ==> es[i] == (emails[i], a)
  {
    if emails == [] then [] else EventsFor(emails[..|emails| - 1], a) + [(emails[|emails| - 1], a)]
  }

  /** The delivery claims its key. */
  predicate ClaimsNow(alreadyClaimed: bool, replies: Replies) {
    replies.claim == E.Done && !alreadyClaimed
  }

  class Worker {
    /** The keys set in the dedup store. */
    var claims: set<E.Key>
    /** The recipient and delivery attempt of every event put into the batcher. */
    var batched: seq<(string, E.AttemptId)>
    ghost var steps: seq<E.Step>

    ghost predicate Valid()
      reads this
    {
      E.Run(steps).Some? && claims == E.Run(steps).value.claims
    }

    ghost function Now(): E.State
      requires Valid()
      reads this
    {
      E.Run(steps).value
    }

    /** The attempt is in this phase of this key's delivery. */
    ghost predicate InPhase(a: E.AttemptId, key: E.Key, p: E.Phase)
      requires Valid()
      reads this
    {
      E.At(Now(), a, p) && Now().attempts[a].key == key
    }

    ghost method Record(step: E.Step)
      requires E.Run(steps).Some? && E.Enabled(E.Run(steps).value, step)
      modifies this`steps
      ensures steps == old(steps) + [step]
      ensures E.Run(steps) == Some(E.Apply(E.Run(old(steps)).value, step))
    {
      steps := steps + [step];
    }

    /** Set the key if it is absent. */
    method TryClaim(a: E.AttemptId, key: E.Key, reply: E.Reply) returns (r: Result<ClaimOutcome, ()>)
      requires Valid() && InPhase(a, key, E.Delivered)
      modifies this`claims, this`steps
      ensures Valid() && steps == old(steps) + [E.Claim(a, reply)]
      ensures r == if reply != E.Done then Err(()) else Ok(if key in old(claims) then AlreadyClaimed else Claimed)
      ensures InPhase(a, key, E.AfterClaim(key in old(claims), reply))
      ensures claims == if reply == E.FailedBefore then old(claims) else old(claims) + {key}
    {
      Record(E.Claim(a, reply));
      var wasSet := key in claims;
      if reply != E.FailedBefore {
        claims := claims + {key};
      }
      if reply != E.Done {
        return Err(());
      }
      r := Ok(if wasSet then AlreadyClaimed else Claimed);
    }

    /** Look the recipients up; the answer decides the phase. */
    ghost method RecordLookup(a: E.AttemptId, key: E.Key, l: Lookup)
      requires Valid() && InPhase(a, key, E.Claimed)
      modifies this`steps
      ensures Valid() && steps == old(steps) + [E.Resolve(a, ResolutionOf(l))]
      ensures InPhase(a, key, E.AfterResolve(ResolutionOf(l)))
    {
      Record(E.Resolve(a, ResolutionOf(l)));
    }

    /** One turn of the enqueue loop, or, when none is left, the confirmation. */
    ghost method RecordEnqueue(a: E.AttemptId, key: E.Key, left: nat)
      requires Valid() && InPhase(a, key, E.Enqueueing(left))
      modifies this`steps
      ensures Valid() && steps == old(steps) + [E.EnqueueNext(a)]
      ensures InPhase(a, key, E.AfterEnqueue(left))
    {
      Record(E.EnqueueNext(a));
    }

    /** Delete the key; a failure is only logged. */
    method ReleaseOrLog(a: E.AttemptId, key: E.Key, reply: E.Reply)
      requires Valid() && InPhase(a, key, E.Releasing)
      modifies this`claims, this`steps
      ensures Valid() && steps == old(steps) + [E.Release(a, reply)]
      ensures InPhase(a, key, E.Released)
      ensures claims == if reply == E.FailedBefore then old(claims) else old(claims) - {key}
    {
      Record(E.Release(a, reply));
      if reply != E.FailedBefore {
        claims := claims - {key};
      }
    }

    /** Acknowledge, or return the message. */
    method SettleDelivery(a: E.AttemptId, key: E.Key, ghost p: E.Phase, reply: E.Reply)
      requires Valid() && InPhase(a, key, p) && E.Settles(p)
      modifies this`steps
      ensures Valid() && steps == old(steps) + [E.Settle(a, reply)]
      ensures InPhase(a, key, E.Over(p))
    {
      Record(E.Settle(a, reply));
    }

    /** Put one event per recipient into the batcher, in order. */
    method EnqueueAll(a: E.AttemptId, key: E.Key, emails: seq<string>)
      requires Valid() && emails != [] && InPhase(a, key, E.Enqueueing(|emails|))
      modifies this`batched, this`steps
      ensures Valid() && old(steps) <= steps
      ensures InPhase(a, key, E.Enqueued)
      ensures batched == old(batched) + EventsFor(emails, a)
      ensures |batched| == |old(batched)| + |emails|
      ensures forall i :: 0 <= i < |emails| ==> batched[|old(batched)| + i] == (emails[i], a)
      ensures claims == old(claims)
    {
      hide E.Run, E.Apply, E.Enabled, E.At;
      for i := 0 to |emails|
        invariant Valid() && old(steps) <= steps
        invariant InPhase(a, key, E.Enqueueing(|emails| - i))
        invariant batched == old(batched) + EventsFor(emails[..i], a)
      {
        assert emails[..i + 1][..i] == emails[..i];
        batched := batched + [(emails[i], a)];
        RecordEnqueue(a, key, |emails| - i);
      }
      assert emails[..|emails|] == emails;
      // Confirming the claim has no effect on the store.
      RecordEnqueue(a, key, 0);
    }

    /** After the claim: look the recipients up and do what the answer asks for. */
    method ProcessClaimed(a: E.AttemptId, key: E.Key, replies: Replies) returns (r: Result<Outcome, AckError>)
      requires Valid() && InPhase(a, key, E.Claimed)
      modifies this
      ensures Valid() && old(steps) <= steps
      ensures InPhase(a, key, E.Over(match replies.lookup
                                     case InvalidEntityQid => E.Unparseable
                                     case OrgNotFound => E.NothingToSend
                                     case UdbError => E.Released
                                     case Members(emails) => if emails == [] then E.NothingToSend else E.Enqueued))
      ensures r.Ok? <==> replies.settle == E.Done
      ensures r.Ok? ==> r.value == match replies.lookup
                                   case InvalidEntityQid => DeadLettered
                                   case UdbError => Requeued
                                   case _ => Enqueued
      ensures r.Err? ==> (r.error.NackFailed? <==> replies.lookup.InvalidEntityQid? || replies.lookup.UdbError?)
      ensures batched == old(batched) + if replies.lookup.Members? then EventsFor(replies.lookup.emails, a) else []
      ensures claims == if replies.lookup.UdbError? && replies.release != E.FailedBefore then old(claims) - {key}
                        else old(claims)
    {
      hide E.Run, E.Apply, E.Enabled, E.At, EventsFor;
      RecordLookup(a, key, replies.lookup);
      match replies.lookup {
        case InvalidEntityQid =>
          SettleDelivery(a, key, E.Unparseable, replies.settle);
          return if replies.settle == E.Done then Ok(DeadLettered) else Err(NackFailed);
        case OrgNotFound =>
          SettleDelivery(a, key, E.NothingToSend, replies.settle);
          return if replies.settle == E.Done then Ok(Enqueued) else Err(AckFailed);
        case UdbError =>
          ReleaseOrLog(a, key, replies.release);
          SettleDelivery(a, key, E.Released, replies.settle);
          return if replies.settle == E.Done then Ok(Requeued) else Err(NackFailed);
        case Members(emails) =>
          if emails == [] {
            NoEvents(a);
            SettleDelivery(a, key, E.NothingToSend, replies.settle);
            return if replies.settle == E.Done then Ok(Enqueued) else Err(AckFailed);
          }
          EnqueueAll(a, key, emails);
          SettleDelivery(a, key, E.Enqueued, replies.settle);
          return if replies.settle == E.Done then Ok(Enqueued) else Err(AckFailed);
      }
    }

    /** Process one delivery without interruption: the effects are steps of the protocol, the
        attempt ends as the replies say, the outcome says how the message was settled, the batcher
        receives one event per recipient, in order, exactly when the key was claimed here and the
        recipients were found, and the key stays claimed exactly when it was, or was claimed here
        and not released. */
    method ProcessDelivery(a: E.AttemptId, key: E.Key, replies: Replies) returns (r: Result<Outcome, AckError>)
      requires Valid() && InPhase(a, key, E.Delivered)
      modifies this
      ensures Valid() && old(steps) <= steps
      ensures replies.claim != E.Done ==> InPhase(a, key, E.Over(E.ClaimFailed))
      ensures replies.claim == E.Done && key in old(claims) ==> InPhase(a, key, E.Over(E.Duplicate))
      ensures ClaimsNow(key in old(claims), replies) ==>
                InPhase(a, key, E.Over(match replies.lookup
                                       case InvalidEntityQid => E.Unparseable
                                       case OrgNotFound => E.NothingToSend
                                       case UdbError => E.Released
                                       case Members(emails) => if emails == [] then E.NothingToSend else E.Enqueued))
      ensures r.Ok? <==> replies.settle == E.Done
      ensures r.Ok? ==>
                && (r.value.Requeued? <==>
                      replies.claim != E.Done || (ClaimsNow(key in old(claims), replies) && replies.lookup.UdbError?))
                && (r.value.DeadLettered? <==>
                      ClaimsNow(key in old(claims), replies) && replies.lookup.InvalidEntityQid?)
      ensures r.Err? ==>
                (r.error.NackFailed? <==>
                   replies.claim != E.Done || (ClaimsNow(key in old(claims), replies) &&
                                               (replies.lookup.InvalidEntityQid? || replies.lookup.UdbError?)))
      ensures if ClaimsNow(key in old(claims), replies) && replies.lookup.Members?
              then && |batched| == |old(batched)| + |replies.lookup.emails|
                   && batched[..|old(batched)|] == old(batched)
                   && forall i :: 0 <= i < |replies.lookup.emails| ==>
                        batched[|old(batched)| + i] == (replies.lookup.emails[i], a)
              else batched == old(batched)
      ensures claims == if replies.claim == E.FailedBefore then old(claims)
                        else if ClaimsNow(key in old(claims), replies) && replies.lookup.UdbError? &&
                                replies.release != E.FailedBefore then old(claims)
                        else old(claims) + {key}
    {
      hide E.Run, E.Apply, E.Enabled, E.At;
      var claim := TryClaim(a, key, replies.claim);
      match claim {
        case Ok(Claimed) =>
        case Ok(AlreadyClaimed) =>
          SettleDelivery(a, key, E.Duplicate, replies.settle);
          return if replies.settle == E.Done then Ok(Enqueued) else Err(AckFailed);
        case Err(_) =>
          SettleDelivery(a, key, E.ClaimFailed, replies.settle);
          return if replies.settle == E.Done then Ok(Requeued) else Err(NackFailed);
      }
      r := ProcessClaimed(a, key, replies);
    }
  }

  lemma NoEvents(a: E.AttemptId)
    ensures EventsFor([], a) == []
  {
  }
}
