/** Deployments and supersession as a state machine: one map of deployments, one of supersessions,
    and what `set`, `set_progress` and `make_desired` do to them. Runs are serial. */
module Supersession {
  import opened Prelude
  import opened Ids

  datatype DeploymentState = Down | Undesired | Lingering | Desired

  datatype Info = Info(createdAt: int, state: DeploymentState, bootstrapped: bool)

  /** `supersededBy[p]` is the deployment of `p`'s environment that took over from `p`. */
  datatype Store = Store(rows: map<DeploymentQid, Info>, supersededBy: map<DeploymentQid, DeploymentId>)

  const EMPTY := Store(map[], map[])

  function In(env: EnvironmentQid, d: DeploymentId): DeploymentQid {
    DeploymentQid(env, d)
  }

  function Set(s: Store, q: DeploymentQid, state: DeploymentState, now: int): (s': Store) {
    if q in s.rows && s.rows[q].state == Down && state == Undesired then s
    else if q in s.rows then s.(rows := s.rows[q := s.rows[q].(state := state)])
    else s.(rows := s.rows[q := Info(now, state, false)])
  }

  /** `None` when there is no such deployment. */
  function SetProgress(s: Store, q: DeploymentQid, bootstrapped: bool): (r: Option<Store>) {
    if q in s.rows then Some(s.(rows := s.rows[q := s.rows[q].(bootstrapped := bootstrapped)])) else None
  }

  function MarkSuperseded(s: Store, p: DeploymentQid, next: DeploymentId): (s': Store) {
    s.(supersededBy := s.supersededBy[p := next])
  }

  /** The deployments that `make_desired` on `q` takes over from. */
  function Rivals(s: Store, q: DeploymentQid): (ps: set<DeploymentQid>) {
    set p | p in s.rows && p.environment == q.environment && p != q && s.rows[p].state == Desired
  }

  /** Each of `ps` lingering and superseded by `next`. */
  function Demote(s: Store, ps: set<DeploymentQid>, next: DeploymentId): (s': Store) {
    Store(map p | p in s.rows :: if p in ps then s.rows[p].(state := Lingering) else s.rows[p],
          map p | p in s.supersededBy.Keys + ps :: if p in ps then next else s.supersededBy[p])
  }

  function MakeDesired(s: Store, q: DeploymentQid, now: int): (s': Store) {
    Set(Demote(s, Rivals(s, q), q.deployment), q, Desired, now)
  }

  lemma DemoteNone(s: Store, next: DeploymentId)
    ensures Demote(s, {}, next) == s
  {
  }

  /** Demoting one deployment at a time demotes them all. */
  lemma DemoteOneMore(s: Store, ps: set<DeploymentQid>, p: DeploymentQid, next: DeploymentId, now: int)
    requires p in s.rows && p !in ps
    ensures MarkSuperseded(Set(Demote(s, ps, next), p, Lingering, now), p, next) == Demote(s, ps + {p}, next)
  {
  }

  /** The deployments `current_deployment` may return: not down, and not superseded. */
  predicate IsCurrent(s: Store, env: EnvironmentQid, p: DeploymentQid) {
    p in s.rows && p.environment == env && s.rows[p].state != Down && p !in s.supersededBy
  }

  // ----- runs -----

  datatype Op =
    | OpSet(q: DeploymentQid, state: DeploymentState, now: int)
    | OpProgress(q: DeploymentQid, bootstrapped: bool)
    | OpMakeDesired(q: DeploymentQid, now: int)

  function Apply(s: Store, op: Op): (s': Store) {
    match op
    case OpSet(q, state, now) => Set(s, q, state, now)
    case OpProgress(q, b) => if SetProgress(s, q, b).Some? then SetProgress(s, q, b).value else s
    case OpMakeDesired(q, now) => MakeDesired(s, q, now)
  }

  function Run(ops: seq<Op>): (s: Store) {
    if ops == [] then EMPTY else Apply(Run(ops[..|ops| - 1]), ops[|ops| - 1])
  }

  // ----- what no run changes -----

  /** A step removes no deployment and changes no creation time, and it changes the bootstrapped
      flag of a deployment only when it is that deployment's `set_progress`. */
  lemma StepKeepsFields(s: Store, op: Op, p: DeploymentQid)
    requires p in s.rows
    ensures p in Apply(s, op).rows
    ensures Apply(s, op).rows[p].createdAt == s.rows[p].createdAt
    ensures Apply(s, op).rows[p].bootstrapped != s.rows[p].bootstrapped ==>
              op == OpProgress(p, !s.rows[p].bootstrapped)
  {
  }

  /** What a step may do to a deployment: create it, set its state, take over from it, or nothing. */
  lemma StepIsLocal(s: Store, op: Op, p: DeploymentQid)
    requires p in Apply(s, op).rows
    ensures p !in s.rows ==>
              && p == op.q && !op.OpProgress?
              && Apply(s, op).rows[p] == Info(op.now, if op.OpSet? then op.state else Desired, false)
    ensures p in s.rows && s.rows[p].state != Apply(s, op).rows[p].state ==>
              || (op.OpSet? && op.q == p && Apply(s, op).rows[p].state == op.state)
              || (op.OpMakeDesired? && op.q == p && Apply(s, op).rows[p].state == Desired)
              || (op.OpMakeDesired? && op.q != p && TakenOver(s, Apply(s, op), p, op.q))
    ensures p in s.rows && s.rows[p].state == Down && Apply(s, op).rows[p].state != Down ==>
              op.q == p && !(op.OpSet? && op.state == Undesired)
  {
  }

  /** `q` has taken over from `p`, a desired deployment of its environment. */
  ghost predicate TakenOver(s: Store, s': Store, p: DeploymentQid, q: DeploymentQid) {
    && p in s.rows && p.environment == q.environment && s.rows[p].state == Desired
    && p in s'.rows && s'.rows[p] == s.rows[p].(state := Lingering)
    && p in s'.supersededBy && s'.supersededBy[p] == q.deployment
  }

  /** `make_desired` makes `q` desired, takes over from every other desired deployment of the
      environment, and leaves all others and all other supersessions alone. */
  lemma PromotionTakesOver(s: Store, q: DeploymentQid, now: int, p: DeploymentQid)
    ensures var s' := MakeDesired(s, q, now);
            && q in s'.rows && s'.rows[q].state == Desired
            && (p in Rivals(s, q) ==> TakenOver(s, s', p, q))
            && (p !in Rivals(s, q) && p != q ==> (p in s'.rows <==> p in s.rows))
            && (p !in Rivals(s, q) && p != q && p in s.rows ==> s'.rows[p] == s.rows[p])
            && (p !in Rivals(s, q) ==> (p in s'.supersededBy <==> p in s.supersededBy))
            && (p !in Rivals(s, q) && p in s.supersededBy ==> s'.supersededBy[p] == s.supersededBy[p])
  {
  }

  lemma {:induction false} CreationTimeIsForever(ops: seq<Op>, more: seq<Op>, p: DeploymentQid)
    requires p in Run(ops).rows
    ensures p in Run(ops + more).rows
    ensures Run(ops + more).rows[p].createdAt == Run(ops).rows[p].createdAt
    ensures (forall op :: op in more && op.OpProgress? ==> op.q != p) ==>
              Run(ops + more).rows[p].bootstrapped == Run(ops).rows[p].bootstrapped
    decreases |more|
  {
    hide Apply;
    var all := ops + more;
    if more == [] {
      assert all == ops;
    } else {
      var init, op := more[..|more| - 1], more[|more| - 1];
      CreationTimeIsForever(ops, init, p);
      assert all[..|all| - 1] == ops + init && all[|all| - 1] == op;
      StepKeepsFields(Run(ops + init), op, p);
    }
  }

  /** A down deployment stays down, however often it is asked to be undesired, until it is promoted
      or set to a live state itself. */
  lemma {:induction false} DownStaysDown(ops: seq<Op>, more: seq<Op>, p: DeploymentQid)
    requires p in Run(ops).rows && Run(ops).rows[p].state == Down
    requires forall op :: op in more && op.q == p ==>
               !op.OpMakeDesired? && (op.OpSet? ==> op.state == Down || op.state == Undesired)
    ensures p in Run(ops + more).rows && Run(ops + more).rows[p].state == Down
    decreases |more|
  {
    hide Apply;
    var all := ops + more;
    if more == [] {
      assert all == ops;
    } else {
      var init, op := more[..|more| - 1], more[|more| - 1];
      DownStaysDown(ops, init, p);
      assert all[..|all| - 1] == ops + init && all[|all| - 1] == op;
      StepKeepsFields(Run(ops + init), op, p);
      StepIsLocal(Run(ops + init), op, p);
    }
  }

  // ----- what every run leaves in a row -----

  /** After `set`, a deployment has the state asked for, unless it was down and asked to be undesired;
      nothing else has changed. */
  lemma SetStores(ops: seq<Op>, p: DeploymentQid, state: DeploymentState, now: int)
    ensures var s, s' := Run(ops), Run(ops + [OpSet(p, state, now)]);
            && p in s'.rows
            && s'.rows[p].state ==
               (if p in s.rows && s.rows[p].state == Down && state == Undesired then Down else state)
            && (forall q :: q != p ==> (q in s'.rows <==> q in s.rows) && (q in s.rows ==> s'.rows[q] == s.rows[q]))
            && s'.supersededBy == s.supersededBy
  {
    assert (ops + [OpSet(p, state, now)])[..|ops|] == ops;
  }

  /** Step `i` reports progress on `p`, which is known by then. */
  ghost predicate ReportsAt(ops: seq<Op>, i: nat, p: DeploymentQid) {
    i < |ops| && ops[i].OpProgress? && ops[i].q == p && p in Run(ops[..i]).rows
  }

  ghost predicate LastReport(ops: seq<Op>, i: nat, p: DeploymentQid) {
    ReportsAt(ops, i, p) && forall j: nat :: i < j ==> !ReportsAt(ops, j, p)
  }

  lemma ReportsBefore(ops: seq<Op>, init: seq<Op>, p: DeploymentQid)
    requires ops != [] && init == ops[..|ops| - 1]
    ensures forall i: nat :: i != |init| ==> ReportsAt(ops, i, p) == ReportsAt(init, i, p)
    ensures forall i: nat :: ReportsAt(init, i, p) ==> i < |init|
  {
    hide Run;
    forall i: nat | i < |init|
      ensures ReportsAt(ops, i, p) == ReportsAt(init, i, p)
    {
      assert init[..i] == ops[..i];
    }
  }

  /** The bootstrapped flag is what the last report on the deployment said, and false without one. */
  lemma {:induction false} FlagIsLastReport(ops: seq<Op>, p: DeploymentQid)
    requires p in Run(ops).rows
    ensures Run(ops).rows[p].bootstrapped <==> exists i: nat :: LastReport(ops, i, p) && ops[i].bootstrapped
  {
    hide ReportsAt, Apply;
    var init, op := ops[..|ops| - 1], ops[|ops| - 1];
    ReportsBefore(ops, init, p);
    ReportsNow(ops, p);
    StepSetsFlag(Run(init), op, p);
    if p in Run(init).rows {
      FlagIsLastReport(init, p);
      if op.OpProgress? && op.q == p {
        assert LastReport(ops, |init|, p);
      } else {
        forall i: nat
          ensures LastReport(ops, i, p) == LastReport(init, i, p)
        {
          assert !ReportsAt(ops, |init|, p) && !ReportsAt(init, |init|, p);
          assert forall j: nat :: ReportsAt(ops, j, p) == ReportsAt(init, j, p);
        }
      }
    } else {
      UnknownHasNoReport(init, p);
    }
  }

  lemma ReportsNow(ops: seq<Op>, p: DeploymentQid)
    requires ops != []
    ensures var init, op := ops[..|ops| - 1], ops[|ops| - 1];
            ReportsAt(ops, |init|, p) <==> op.OpProgress? && op.q == p && p in Run(init).rows
  {
    hide Run;
  }

  lemma StepSetsFlag(s: Store, op: Op, p: DeploymentQid)
    requires p in Apply(s, op).rows
    ensures Apply(s, op).rows[p].bootstrapped ==
            if p !in s.rows then false
            else if op.OpProgress? && op.q == p then op.bootstrapped else s.rows[p].bootstrapped
  {
  }

  lemma {:induction false} UnknownHasNoReport(ops: seq<Op>, p: DeploymentQid)
    requires p !in Run(ops).rows
    ensures forall i: nat :: !ReportsAt(ops, i, p)
  {
    hide ReportsAt, Apply;
    if ops == [] {
      NoReportInEmpty(p);
    } else {
      var init, op := ops[..|ops| - 1], ops[|ops| - 1];
      if p in Run(init).rows {
        StepKeepsFields(Run(init), op, p);
      } else {
        UnknownHasNoReport(init, p);
        ReportsBefore(ops, init, p);
        ReportsNow(ops, p);
      }
    }
  }

  lemma NoReportInEmpty(p: DeploymentQid)
    ensures forall i: nat :: !ReportsAt([], i, p)
  {
  }

  // ----- at most one desired deployment -----

  ghost predicate OneDesired(s: Store) {
    forall p, q | p in s.rows && q in s.rows && p.environment == q.environment ::
      s.rows[p].state == Desired && s.rows[q].state == Desired ==> p == q
  }

  /** The only way to `Desired` is `make_desired`. */
  predicate DesiredOnlyByMake(op: Op) {
    op.OpSet? ==> op.state != Desired
  }

  lemma StepKeepsOneDesired(s: Store, op: Op)
    requires OneDesired(s) && DesiredOnlyByMake(op)
    ensures OneDesired(Apply(s, op))
  {
    hide MakeDesired;
    var s' := Apply(s, op);
    forall p | p in s'.rows && s'.rows[p].state == Desired
      ensures op.OpMakeDesired? && p.environment == op.q.environment ==> p == op.q
      ensures p != op.q || !op.OpMakeDesired? ==> p in s.rows && s.rows[p].state == Desired
    {
      if op.OpMakeDesired? {
        PromotionTakesOver(s, op.q, op.now, p);
      }
    }
  }

  /** Whatever else is set, torn down or promoted, an environment never has two desired
      deployments. */
  lemma {:induction false} EveryRunHasOneDesired(ops: seq<Op>)
    requires forall op :: op in ops ==> DesiredOnlyByMake(op)
    ensures OneDesired(Run(ops))
  {
    if ops != [] {
      var init, op := ops[..|ops| - 1], ops[|ops| - 1];
      EveryRunHasOneDesired(init);
      StepKeepsOneDesired(Run(init), op);
    }
  }

  // ----- when the current deployment is unique -----

  ghost predicate AtMostOneCurrent(s: Store, env: EnvironmentQid) {
    forall p, q :: IsCurrent(s, env, p) && IsCurrent(s, env, q) ==> p == q
  }

  /** In every run only known deployments are superseded. */
  lemma {:induction false} SupersededAreKnown(ops: seq<Op>)
    ensures Run(ops).supersededBy.Keys <= Run(ops).rows.Keys
  {
    if ops != [] {
      SupersededAreKnown(ops[..|ops| - 1]);
    }
  }

  /** `p` is current, and no promotion in the environment takes over from it. */
  ghost predicate CurrentUndesired(s: Store, env: EnvironmentQid, p: DeploymentQid) {
    IsCurrent(s, env, p) && s.rows[p].state != Desired
  }

  /** Promoting a deployment that is not superseded, in particular a new one, leaves one current
      deployment exactly when every other current one was desired; a torn-down but not yet down
      deployment is taken over by nobody. Promoting a superseded one leaves at most one exactly when
      at most one other was current and not desired. */
  lemma CurrentIsUniqueIff(s: Store, q: DeploymentQid, now: int)
    ensures AtMostOneCurrent(MakeDesired(s, q, now), q.environment) <==>
            if q in s.supersededBy
            then forall p, r ::
                   CurrentUndesired(s, q.environment, p) && CurrentUndesired(s, q.environment, r) ==> p == r
            else forall p :: CurrentUndesired(s, q.environment, p) ==> p == q
  {
    hide MakeDesired;
    var s', env := MakeDesired(s, q, now), q.environment;
    forall p
      ensures IsCurrent(s', env, p) <==> if p == q then q !in s.supersededBy else CurrentUndesired(s, env, p)
    {
      PromotionTakesOver(s, q, now, p);
    }
    assert q in s.supersededBy || IsCurrent(s', env, q);
  }

  /** Setting a state makes `q` current. */
  ghost predicate SetsCurrent(s: Store, q: DeploymentQid, state: DeploymentState) {
    && q !in s.supersededBy && state != Down
    && !(q in s.rows && s.rows[q].state == Down && state == Undesired)
  }

  /** Setting a state, tear-downs included, leaves at most one current deployment exactly when at
      most one other is current, and none if `q` becomes or stays current. */
  lemma SetIsUniqueIff(s: Store, q: DeploymentQid, state: DeploymentState, now: int)
    ensures AtMostOneCurrent(Set(s, q, state, now), q.environment) <==>
            if SetsCurrent(s, q, state)
            then forall p :: IsCurrent(s, q.environment, p) ==> p == q
            else forall p, r | p != q && r != q ::
                   IsCurrent(s, q.environment, p) && IsCurrent(s, q.environment, r) ==> p == r
  {
    var s', env := Set(s, q, state, now), q.environment;
    forall p
      ensures IsCurrent(s', env, p) <==> if p == q then SetsCurrent(s, q, state) else IsCurrent(s, env, p)
    {
    }
    assert SetsCurrent(s, q, state) ==> IsCurrent(s', env, q);
  }

  /** So a known deployment that is not revived from `Down` can be set to any state. */
  lemma SetKeepsUnique(s: Store, q: DeploymentQid, state: DeploymentState, now: int)
    requires AtMostOneCurrent(s, q.environment)
    requires q in s.rows && (s.rows[q].state == Down ==> state == Down || state == Undesired)
    ensures AtMostOneCurrent(Set(s, q, state, now), q.environment)
  {
    SetIsUniqueIff(s, q, state, now);
    assert SetsCurrent(s, q, state) ==> IsCurrent(s, q.environment, q);
  }

  /** A tear-down followed by a new deployment: two current deployments. */
  lemma TearDownLeavesTwoCurrent(env: EnvironmentQid, a: DeploymentId, b: DeploymentId)
    requires a != b
    ensures var ops := [OpMakeDesired(In(env, a), 0), OpSet(In(env, a), Undesired, 1), OpMakeDesired(In(env, b), 2)];
            IsCurrent(Run(ops), env, In(env, a)) && IsCurrent(Run(ops), env, In(env, b))
  {
    var first, second, third := OpMakeDesired(In(env, a), 0), OpSet(In(env, a), Undesired, 1), OpMakeDesired(In(env, b), 2);
    assert [first, second, third][..2] == [first, second];
    assert [first, second][..1] == [first];
    assert Run([first]) == Apply(EMPTY, first);
  }

  /** Setting an unknown deployment undesired: two current deployments. */
  lemma UnknownLeavesTwoCurrent(env: EnvironmentQid, a: DeploymentId, b: DeploymentId)
    requires a != b
    ensures var ops := [OpMakeDesired(In(env, a), 0), OpSet(In(env, b), Undesired, 1)];
            IsCurrent(Run(ops), env, In(env, a)) && IsCurrent(Run(ops), env, In(env, b))
  {
    var first, second := OpMakeDesired(In(env, a), 0), OpSet(In(env, b), Undesired, 1);
    assert [first, second][..1] == [first];
    assert Run([first]) == Apply(EMPTY, first);
  }

  // ----- supersession has no cycles -----

  /** Every promotion is of a new deployment. Anything may be set besides. */
  ghost predicate PromotesNew(ops: seq<Op>) {
    forall i :: 0 <= i < |ops| && ops[i].OpMakeDesired? ==> ops[i].q !in Run(ops[..i]).rows
  }

  lemma PrefixPromotesNew(ops: seq<Op>)
    requires PromotesNew(ops) && ops != []
    ensures PromotesNew(ops[..|ops| - 1])
    ensures ops[|ops| - 1].OpMakeDesired? ==> ops[|ops| - 1].q !in Run(ops[..|ops| - 1]).rows
  {
    var init := ops[..|ops| - 1];
    forall i | 0 <= i < |init| && init[i].OpMakeDesired?
      ensures init[i].q !in Run(init[..i]).rows
    {
      assert init[..i] == ops[..i];
    }
  }

  /** The step that created a deployment. */
  function Born(ops: seq<Op>, p: DeploymentQid): (n: nat)
    requires p in Run(ops).rows
    ensures 0 < n <= |ops|
  {
    if p in Run(ops[..|ops| - 1]).rows then Born(ops[..|ops| - 1], p) else |ops|
  }

  /** A deployment was created by a `set` or a promotion of its own, at the time of that step. */
  lemma {:induction false} CreatedWhenBorn(ops: seq<Op>, p: DeploymentQid)
    requires p in Run(ops).rows
    ensures var op := ops[Born(ops, p) - 1];
            !op.OpProgress? && op.q == p && Run(ops).rows[p].createdAt == op.now
  {
    hide Apply;
    var init, op := ops[..|ops| - 1], ops[|ops| - 1];
    if p in Run(init).rows {
      CreatedWhenBorn(init, p);
      StepKeepsFields(Run(init), op, p);
    } else {
      StepIsLocal(Run(init), op, p);
    }
  }

  /** A deployment is superseded only by one created after it. */
  lemma {:induction false} SupersededByYounger(ops: seq<Op>, p: DeploymentQid)
    requires PromotesNew(ops) && p in Run(ops).supersededBy
    ensures var q := In(p.environment, Run(ops).supersededBy[p]);
            p in Run(ops).rows && q in Run(ops).rows && Born(ops, p) < Born(ops, q)
  {
    if ops != [] {
      var init, op := ops[..|ops| - 1], ops[|ops| - 1];
      PrefixPromotesNew(ops);
      if !(op.OpMakeDesired? && p in Rivals(Run(init), op.q)) {
        SupersededByYounger(init, p);
      }
    }
  }

  /** Follow supersessions `n` times. */
  function Follow(s: Store, p: DeploymentQid, n: nat): (r: Option<DeploymentQid>)
    decreases n
  {
    if n == 0 then Some(p)
    else if p in s.supersededBy then Follow(s, In(p.environment, s.supersededBy[p]), n - 1)
    else None
  }

  /** Following supersessions always moves on to younger deployments. */
  lemma {:induction false} FollowGetsYounger(ops: seq<Op>, p: DeploymentQid, n: nat)
    requires PromotesNew(ops) && p in Run(ops).rows && Follow(Run(ops), p, n).Some?
    ensures var r := Follow(Run(ops), p, n).value;
            r in Run(ops).rows && Born(ops, r) >= Born(ops, p) + n
    decreases n
  {
    if n > 0 {
      SupersededByYounger(ops, p);
      FollowGetsYounger(ops, In(p.environment, Run(ops).supersededBy[p]), n - 1);
    }
  }

  /** So it never returns to where it was, and it ends after at most as many steps as the run had,
      even in runs with tear-downs. */
  lemma NoSupersessionCycle(ops: seq<Op>, p: DeploymentQid, n: nat)
    requires PromotesNew(ops) && p in Run(ops).rows
    ensures n > 0 ==> Follow(Run(ops), p, n) != Some(p)
    ensures n >= |ops| ==> Follow(Run(ops), p, n).None?
  {
    if Follow(Run(ops), p, n).Some? {
      FollowGetsYounger(ops, p, n);
    }
  }

  // ----- tear-downs leave several chains -----

  /** No superseded deployment is desired, no two have the same successor, and successors are known. */
  ghost predicate Chained(s: Store) {
    && (forall p :: p in s.supersededBy ==> p in s.rows && s.rows[p].state != Desired)
    && (forall p :: p in s.supersededBy ==> In(p.environment, s.supersededBy[p]) in s.rows)
    && (forall p, q | p in s.supersededBy && q in s.supersededBy && p.environment == q.environment ::
          s.supersededBy[p] == s.supersededBy[q] ==> p == q)
  }

  lemma PromotionKeepsChained(s: Store, q: DeploymentQid, now: int)
    requires Chained(s) && OneDesired(s) && q !in s.rows
    ensures Chained(MakeDesired(s, q, now))
  {
    hide MakeDesired, OneDesired;
    var s' := MakeDesired(s, q, now);
    forall p | p in s'.supersededBy
      ensures p in s'.rows && s'.rows[p].state != Desired && In(p.environment, s'.supersededBy[p]) in s'.rows
      ensures p in Rivals(s, q) || (p in s.supersededBy && s.supersededBy[p] == s'.supersededBy[p])
      ensures p in Rivals(s, q) <==> In(p.environment, s'.supersededBy[p]) == q
    {
      PromotionTakesOver(s, q, now, p);
      if p !in Rivals(s, q) {
        PromotionTakesOver(s, q, now, In(p.environment, s.supersededBy[p]));
      }
    }
    AtMostOneRival(s, q);
  }

  lemma AtMostOneRival(s: Store, q: DeploymentQid)
    requires OneDesired(s)
    ensures forall p, r :: p in Rivals(s, q) && r in Rivals(s, q) ==> p == r
  {
  }

  lemma {:induction false} EveryRunIsChained(ops: seq<Op>)
    requires PromotesNew(ops) && forall op :: op in ops ==> DesiredOnlyByMake(op)
    ensures Chained(Run(ops))
  {
    hide OneDesired;
    if ops != [] {
      var init, op := ops[..|ops| - 1], ops[|ops| - 1];
      PrefixPromotesNew(ops);
      EveryRunIsChained(init);
      if op.OpMakeDesired? {
        EveryRunHasOneDesired(init);
        PromotionKeepsChained(Run(init), op.q, op.now);
      } else {
        assert DesiredOnlyByMake(op);
      }
    }
  }

  /** The last of `n` supersessions followed. */
  lemma {:induction false} FollowLast(s: Store, p: DeploymentQid, n: nat)
    requires n > 0 && Follow(s, p, n).Some?
    ensures var before := Follow(s, p, n - 1);
            && before.Some? && before.value in s.supersededBy
            && Follow(s, p, n).value == In(before.value.environment, s.supersededBy[before.value])
    decreases n
  {
    if n > 1 {
      FollowLast(s, In(p.environment, s.supersededBy[p]), n - 1);
    }
  }

  /** Two deployments that lead to the same one lie on one path. */
  lemma {:induction false} PathsDoNotMerge(s: Store, p: DeploymentQid, n: nat, q: DeploymentQid, m: nat)
    requires Chained(s) && n <= m
    requires Follow(s, p, n).Some? && Follow(s, p, n) == Follow(s, q, m)
    ensures Follow(s, q, m - n) == Some(p)
    decreases n
  {
    if n > 0 {
      FollowLast(s, p, n);
      FollowLast(s, q, m);
      PathsDoNotMerge(s, p, n - 1, q, m - 1);
    }
  }

  lemma {:induction false} FollowEnds(s: Store, p: DeploymentQid, k: nat)
    requires Follow(s, p, k).None?
    ensures exists n: nat :: n < k && Follow(s, p, n).Some? && Follow(s, p, n).value !in s.supersededBy
    decreases k
  {
    if k > 0 {
      if Follow(s, p, k - 1).None? {
        FollowEnds(s, p, k - 1);
      } else if Follow(s, p, k - 1).value in s.supersededBy {
        FollowOnce(s, p, k - 1);
      }
    }
  }

  lemma {:induction false} FollowOnce(s: Store, p: DeploymentQid, n: nat)
    requires Follow(s, p, n).Some? && Follow(s, p, n).value in s.supersededBy
    ensures Follow(s, p, n + 1).Some?
    decreases n
  {
    if n > 0 {
      FollowOnce(s, In(p.environment, s.supersededBy[p]), n - 1);
    }
  }

  /** Whatever is torn down in between, the supersessions are disjoint chains: each deployment leads
      to one that is not superseded, no two chains meet, and only the end of one can be desired. */
  lemma SupersessionsAreDisjointChains(ops: seq<Op>, p: DeploymentQid, q: DeploymentQid, n: nat, m: nat)
    requires PromotesNew(ops) && forall op :: op in ops ==> DesiredOnlyByMake(op)
    requires p in Run(ops).rows
    ensures exists k: nat :: Follow(Run(ops), p, k).Some? && Follow(Run(ops), p, k).value !in Run(ops).supersededBy
    ensures n <= m && Follow(Run(ops), p, n).Some? && Follow(Run(ops), p, n) == Follow(Run(ops), q, m) ==>
              Follow(Run(ops), q, m - n) == Some(p)
    ensures Run(ops).rows[p].state == Desired ==> p !in Run(ops).supersededBy
  {
    hide Run, Follow;
    NoSupersessionCycle(ops, p, |ops|);
    FollowEnds(Run(ops), p, |ops|);
    EveryRunIsChained(ops);
    if n <= m && Follow(Run(ops), p, n).Some? && Follow(Run(ops), p, n) == Follow(Run(ops), q, m) {
      PathsDoNotMerge(Run(ops), p, n, q, m);
    }
  }

  // ----- the supersession chain -----

  /** Promotions are of new deployments; other states are set only on deployments already
      superseded; progress is reported on any. */
  predicate Orderly(s: Store, op: Op) {
    match op
    case OpMakeDesired(q, _) => q !in s.rows
    case OpSet(q, state, _) => q in s.supersededBy && state != Desired
    case OpProgress(_, _) => true
  }

  ghost predicate OrderlyRun(ops: seq<Op>) {
    forall i :: 0 <= i < |ops| ==> Orderly(Run(ops[..i]), ops[i])
  }

  /** The clock readings of the promotions do not go backwards. */
  ghost predicate ClockIsMonotone(ops: seq<Op>) {
    forall i, j :: 0 <= i < j < |ops| && ops[i].OpMakeDesired? && ops[j].OpMakeDesired? ==> ops[i].now <= ops[j].now
  }

  /** The deployments promoted in an environment, oldest first. */
  function Promoted(ops: seq<Op>, env: EnvironmentQid): (h: seq<DeploymentId>) {
    if ops == [] then []
    else
      var h, op := Promoted(ops[..|ops| - 1], env), ops[|ops| - 1];
      if op.OpMakeDesired? && op.q.environment == env then h + [op.q.deployment] else h
  }

  /** The deployments of `env` are `h`, each superseded by the next and no longer desired; the last
      is desired and not superseded. */
  ghost predicate IsChain(s: Store, env: EnvironmentQid, h: seq<DeploymentId>) {
    && (forall i, j :: 0 <= i < j < |h| ==> h[i] != h[j])
    && (forall d :: In(env, d) in s.rows <==> d in h)
    && (forall d :: In(env, d) in s.supersededBy ==> d in h)
    && (forall i :: 0 <= i < |h| - 1 ==> Superseded(s, env, h[i], h[i + 1]))
    && (h != [] ==> Leads(s, env, h[|h| - 1]))
  }

  ghost predicate Superseded(s: Store, env: EnvironmentQid, d: DeploymentId, next: DeploymentId) {
    && In(env, d) in s.rows && s.rows[In(env, d)].state != Desired
    && In(env, d) in s.supersededBy && s.supersededBy[In(env, d)] == next
  }

  ghost predicate Leads(s: Store, env: EnvironmentQid, d: DeploymentId) {
    In(env, d) in s.rows && s.rows[In(env, d)].state == Desired && In(env, d) !in s.supersededBy
  }

  /** Creation times follow the order of the chain. */
  ghost predicate InCreationOrder(s: Store, env: EnvironmentQid, h: seq<DeploymentId>)
    requires forall d :: d in h ==> In(env, d) in s.rows
  {
    forall i, j :: 0 <= i < j < |h| ==> s.rows[In(env, h[i])].createdAt <= s.rows[In(env, h[j])].createdAt
  }

  /** In a chain only the last deployment is desired. */
  lemma OnlyLastIsDesired(s: Store, env: EnvironmentQid, h: seq<DeploymentId>, p: DeploymentQid)
    requires IsChain(s, env, h) && p in s.rows && p.environment == env
    ensures h != [] && (s.rows[p].state == Desired <==> p == In(env, h[|h| - 1]))
    ensures p !in s.supersededBy <==> p == In(env, h[|h| - 1])
  {
    assert p == In(env, p.deployment);
    var i :| 0 <= i < |h| && h[i] == p.deployment;
    if i < |h| - 1 {
      assert Superseded(s, env, h[i], h[i + 1]);
    }
  }

  lemma PromotionExtends(s: Store, q: DeploymentQid, now: int, h: seq<DeploymentId>)
    requires IsChain(s, q.environment, h) && q !in s.rows
    ensures IsChain(MakeDesired(s, q, now), q.environment, h + [q.deployment])
  {
  }

  /** Steps that are no promotion in the environment keep its chain. */
  lemma OthersKeepChain(s: Store, op: Op, env: EnvironmentQid, h: seq<DeploymentId>)
    requires IsChain(s, env, h) && Orderly(s, op)
    requires op.OpMakeDesired? ==> op.q.environment != env
    ensures IsChain(Apply(s, op), env, h)
  {
  }

  lemma PrefixIsOrderly(ops: seq<Op>)
    requires OrderlyRun(ops) && ops != []
    ensures OrderlyRun(ops[..|ops| - 1])
    ensures Orderly(Run(ops[..|ops| - 1]), ops[|ops| - 1])
  {
    var init := ops[..|ops| - 1];
    forall i | 0 <= i < |init|
      ensures Orderly(Run(init[..i]), init[i])
    {
      assert init[..i] == ops[..i];
    }
  }

  /** In every orderly run each environment's supersessions form one chain, in order of creation. */
  lemma {:induction false} EveryRunIsAChain(ops: seq<Op>, env: EnvironmentQid)
    requires OrderlyRun(ops)
    ensures IsChain(Run(ops), env, Promoted(ops, env))
  {
    if ops != [] {
      var init, op := ops[..|ops| - 1], ops[|ops| - 1];
      PrefixIsOrderly(ops);
      EveryRunIsAChain(init, env);
      if op.OpMakeDesired? && op.q.environment == env {
        PromotionExtends(Run(init), op.q, op.now, Promoted(init, env));
      } else {
        OthersKeepChain(Run(init), op, env, Promoted(init, env));
      }
    }
  }

  /** Following the chain from its `i`th deployment visits the rest of it, and ends there. */
  lemma {:induction false} FollowWalksChain(s: Store, env: EnvironmentQid, h: seq<DeploymentId>, i: nat, n: nat)
    requires IsChain(s, env, h) && i < |h|
    ensures Follow(s, In(env, h[i]), n) == if i + n < |h| then Some(In(env, h[i + n])) else None
    decreases n
  {
    if n > 0 {
      if i < |h| - 1 {
        FollowWalksChain(s, env, h, i + 1, n - 1);
      }
    }
  }

  /** From every deployment of an orderly run, supersession leads to the last promoted one, which is
      the only one not superseded, the only desired one and the only current one. */
  lemma SupersessionLeadsToCurrent(ops: seq<Op>, p: DeploymentQid)
    requires OrderlyRun(ops) && p in Run(ops).rows
    ensures var h := Promoted(ops, p.environment);
            && h != []
            && Leads(Run(ops), p.environment, h[|h| - 1])
            && exists n: nat :: Follow(Run(ops), p, n) == Some(In(p.environment, h[|h| - 1]))
    ensures var last := In(p.environment, Promoted(ops, p.environment)[|Promoted(ops, p.environment)| - 1]);
            && (p !in Run(ops).supersededBy <==> p == last)
            && (Run(ops).rows[p].state == Desired <==> p == last)
            && (IsCurrent(Run(ops), p.environment, p) <==> p == last)
  {
    hide Run, Promoted, Follow;
    var s, env, h := Run(ops), p.environment, Promoted(ops, p.environment);
    EveryRunIsAChain(ops, env);
    OnlyLastIsDesired(s, env, h, p);
    assert p == In(env, p.deployment);
    var i :| 0 <= i < |h| && h[i] == p.deployment;
    FollowWalksChain(s, env, h, i, |h| - 1 - i);
  }

  /** After an orderly run the current deployment of an environment is its last promoted one, and
      that one is desired. */
  lemma CurrentIsLastPromoted(ops: seq<Op>, env: EnvironmentQid, p: DeploymentQid)
    requires OrderlyRun(ops)
    ensures var h := Promoted(ops, env);
            && (IsCurrent(Run(ops), env, p) <==> h != [] && p == In(env, h[|h| - 1]))
            && (IsCurrent(Run(ops), env, p) ==> Run(ops).rows[p].state == Desired)
  {
    EveryRunIsAChain(ops, env);
    if p in Run(ops).rows && p.environment == env {
      SupersessionLeadsToCurrent(ops, p);
    }
  }

  lemma {:induction false} PromotedLater(ops: seq<Op>, env: EnvironmentQid, now: int)
    requires OrderlyRun(ops)
    requires forall op :: op in ops && op.OpMakeDesired? ==> op.now <= now
    ensures forall d :: d in Promoted(ops, env) ==>
              In(env, d) in Run(ops).rows && Run(ops).rows[In(env, d)].createdAt <= now
  {
    if ops != [] {
      var init, op := ops[..|ops| - 1], ops[|ops| - 1];
      PrefixIsOrderly(ops);
      PromotedLater(init, env, now);
    }
  }

  /** With a clock that does not go backwards, creation times follow the chain. */
  lemma {:induction false} ChainIsInCreationOrder(ops: seq<Op>, env: EnvironmentQid)
    requires OrderlyRun(ops) && ClockIsMonotone(ops)
    ensures IsChain(Run(ops), env, Promoted(ops, env))
    ensures InCreationOrder(Run(ops), env, Promoted(ops, env))
  {
    EveryRunIsAChain(ops, env);
    if ops != [] {
      var init, op := ops[..|ops| - 1], ops[|ops| - 1];
      PrefixIsOrderly(ops);
      ChainIsInCreationOrder(init, env);
      var h := Promoted(init, env);
      forall d | d in h
        ensures Run(ops).rows[In(env, d)].createdAt == Run(init).rows[In(env, d)].createdAt
      {
        StepKeepsFields(Run(init), op, In(env, d));
      }
      if op.OpMakeDesired? && op.q.environment == env {
        PromotedLater(init, env, op.now);
      }
    }
  }
}
