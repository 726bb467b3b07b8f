/** The deployment store as its database tables: three tables of deployments keyed differently, and
    one of supersessions. Every statement succeeds and takes effect at once. The methods are proved
    to keep all tables views of one `Supersession.Store`, and to step it. */
module DeploymentTables {
  import opened Prelude
  import opened Bits
  import opened Ids
  import opened TableView
  import S = Supersession

  datatype DeploymentKey = DeploymentKey(org: string, repo: string, createdAt: int, environment: string,
                                         commit: nat, nonce: int)
  datatype DeploymentRow = DeploymentRow(state: string, bootstrapped: bool)
  datatype ByIdRow = ByIdRow(org: string, repo: string, environment: string, commit: nat, nonce: int,
                             createdAt: int, state: string, bootstrapped: bool)
  datatype EnvKey = EnvKey(org: string, repo: string, environment: string, commit: nat, nonce: int)
  datatype SupersedingRow = SupersedingRow(commit: nat, nonce: int)

  datatype Deployment = Deployment(qid: DeploymentQid, info: S.Info)

  datatype QueryError = NotFound | InvalidId | InvalidState

  // ----- columns -----

  /** The nonce as the signed column it is stored in; the cast back loses nothing. */
  function NonceColumn(n: Nonce): (v: int)
    ensures IsI64(v) && AsU64(v) == n
  {
    AsI64(n)
  }

  function PrintState(s: S.DeploymentState): string {
    match s
    case Down => "DOWN"
    case Undesired => "UNDESIRED"
    case Lingering => "LINGERING"
    case Desired => "DESIRED"
  }

  function ParseState(s: string): Option<S.DeploymentState> {
    if s == "DOWN" then Some(S.Down)
    else if s == "UNDESIRED" then Some(S.Undesired)
    else if s == "LINGERING" then Some(S.Lingering)
    else if s == "DESIRED" then Some(S.Desired)
    else None
  }

  /** A printed state parses back; the four texts are those of the column. */
  lemma StateReadsBack(s: S.DeploymentState)
    ensures ParseState(PrintState(s)) == Some(s)
    ensures s.Down? <==> PrintState(s) == "DOWN"
    ensures s.Undesired? <==> PrintState(s) == "UNDESIRED"
    ensures s.Lingering? <==> PrintState(s) == "LINGERING"
    ensures s.Desired? <==> PrintState(s) == "DESIRED"
  {
  }

  function DeploymentKeyOf(q: DeploymentQid, i: S.Info): DeploymentKey {
    DeploymentKey(q.environment.repo.org, q.environment.repo.repo, i.createdAt, q.environment.environment,
                  q.deployment.commit, NonceColumn(q.deployment.nonce))
  }

  function DeploymentRowOf(q: DeploymentQid, i: S.Info): DeploymentRow {
    DeploymentRow(PrintState(i.state), i.bootstrapped)
  }

  function ByIdKeyOf(q: DeploymentQid, i: S.Info): string {
    PrintDeployment(q)
  }

  function ByIdRowOf(q: DeploymentQid, i: S.Info): ByIdRow {
    ByIdRow(q.environment.repo.org, q.environment.repo.repo, q.environment.environment,
            q.deployment.commit, NonceColumn(q.deployment.nonce), i.createdAt, PrintState(i.state), i.bootstrapped)
  }

  function EnvKeyOf(q: DeploymentQid): EnvKey {
    EnvKey(q.environment.repo.org, q.environment.repo.repo, q.environment.environment,
           q.deployment.commit, NonceColumn(q.deployment.nonce))
  }

  function ActiveKeyOf(q: DeploymentQid, i: S.Info): EnvKey {
    EnvKeyOf(q)
  }

  function SupersededKeyOf(q: DeploymentQid, d: DeploymentId): EnvKey {
    EnvKeyOf(q)
  }

  function SupersedingRowOf(q: DeploymentQid, d: DeploymentId): SupersedingRow {
    SupersedingRow(d.commit, NonceColumn(d.nonce))
  }

  predicate Any(i: S.Info) { true }
  predicate AnyId(d: DeploymentId) { true }
  predicate NotDown(i: S.Info) { i.state != S.Down }

  /** A row read back into a deployment. */
  function FromRow(row: ByIdRow): (r: Result<Deployment, QueryError>)
    requires IsI64(row.nonce)
  {
    if !ValidSymbol(row.org) || !ValidSymbol(row.repo) || row.environment == [] then Err(InvalidId)
    else if ParseState(row.state).None? then Err(InvalidState)
    else
      var env := EnvironmentQid(RepoQid(row.org, row.repo), row.environment);
      Ok(Deployment(DeploymentQid(env, DeploymentId(row.commit, AsU64(row.nonce))),
                    S.Info(row.createdAt, ParseState(row.state).value, row.bootstrapped)))
  }

  lemma RowReadsBack(q: DeploymentQid, i: S.Info)
    requires ValidDeployment(q)
    ensures IsI64(ByIdRowOf(q, i).nonce)
    ensures FromRow(ByIdRowOf(q, i)) == Ok(Deployment(q, i))
  {
  }

  /** A row is read back exactly when it is the row of a deployment with valid names. */
  lemma RowIsExact(row: ByIdRow)
    requires IsI64(row.nonce)
    ensures FromRow(row).Ok? ==>
              var d := FromRow(row).value; ValidEnvironment(d.qid.environment) && ByIdRowOf(d.qid, d.info) == row
    ensures FromRow(row).Err? ==>
              forall q: DeploymentQid, i: S.Info :: ValidEnvironment(q.environment) ==> ByIdRowOf(q, i) != row
    ensures FromRow(row).Err? ==>
              FromRow(row).error ==
              if ValidEnvironment(EnvironmentQid(RepoQid(row.org, row.repo), row.environment))
              then InvalidState else InvalidId
  {
  }

  lemma IdOfValid(q: DeploymentQid)
    requires ValidDeployment(q)
    ensures ValidDeploymentId(q.deployment)
  {
  }

  // ----- tables as views of the deployments -----

  ghost predicate Valids(qs: set<DeploymentQid>) {
    forall q :: q in qs ==> ValidDeployment(q)
  }

  ghost predicate ValidIds(sup: map<DeploymentQid, DeploymentId>) {
    forall q :: q in sup ==> ValidDeploymentId(sup[q])
  }

  /** Each deployment has a key of its own in each table, as long as its creation time stays. */
  lemma DeploymentsHaveOwnKeys(rows: map<DeploymentQid, S.Info>, q: DeploymentQid, i: S.Info)
    requires Valids(rows.Keys) && ValidDeployment(q)
    ensures OwnKey(rows, ByIdKeyOf, q, i) && OwnKey(rows, ActiveKeyOf, q, i)
    ensures q !in rows || rows[q].createdAt == i.createdAt ==> OwnKey(rows, DeploymentKeyOf, q, i)
  {
    forall p | p in rows && p != q
      ensures ByIdKeyOf(p, rows[p]) != ByIdKeyOf(q, i)
      ensures ActiveKeyOf(p, rows[p]) != ActiveKeyOf(q, i)
      ensures DeploymentKeyOf(p, rows[p]) != DeploymentKeyOf(q, i)
    {
      if PrintDeployment(p) == PrintDeployment(q) {
        DeploymentKeysAreInjective(p, q);
      }
    }
  }

  // ----- the store -----

  /** The four tables are views of one store. */
  ghost predicate IsStore(deployments: map<DeploymentKey, DeploymentRow>, byId: map<string, ByIdRow>,
                          active: map<EnvKey, string>, supersessions: map<EnvKey, SupersedingRow>, s: S.Store)
  {
    && Valids(s.rows.Keys) && Valids(s.supersededBy.Keys) && ValidIds(s.supersededBy)
    && IsView(deployments, s.rows, DeploymentKeyOf, DeploymentRowOf, Any)
    && IsView(byId, s.rows, ByIdKeyOf, ByIdRowOf, Any)
    && IsView(active, s.rows, ActiveKeyOf, ByIdKeyOf, NotDown)
    && IsView(supersessions, s.supersededBy, SupersededKeyOf, SupersedingRowOf, AnyId)
  }

  lemma WriteKeepsStore(deployments: map<DeploymentKey, DeploymentRow>, byId: map<string, ByIdRow>,
                        active: map<EnvKey, string>, supersessions: map<EnvKey, SupersedingRow>, s: S.Store,
                        q: DeploymentQid, i: S.Info)
    requires IsStore(deployments, byId, active, supersessions, s) && ValidDeployment(q)
    requires q in s.rows ==> s.rows[q].createdAt == i.createdAt
    ensures IsStore(deployments[DeploymentKeyOf(q, i) := DeploymentRowOf(q, i)],
                    byId[PrintDeployment(q) := ByIdRowOf(q, i)],
                    if i.state == S.Down then active - {EnvKeyOf(q)} else active[EnvKeyOf(q) := PrintDeployment(q)],
                    supersessions, s.(rows := s.rows[q := i]))
  {
    hide ValidDeployment, PrintDeployment, PrintState, IsView;
    DeploymentsHaveOwnKeys(s.rows, q, i);
    WriteKeepsView(deployments, s.rows, DeploymentKeyOf, DeploymentRowOf, Any, q, i);
    WriteKeepsView(byId, s.rows, ByIdKeyOf, ByIdRowOf, Any, q, i);
    WriteKeepsView(active, s.rows, ActiveKeyOf, ByIdKeyOf, NotDown, q, i);
  }

  /** A deployment written with another creation time leaves a row that belongs to no deployment. */
  lemma StaleRowRemains(deployments: map<DeploymentKey, DeploymentRow>, byId: map<string, ByIdRow>,
                        active: map<EnvKey, string>, supersessions: map<EnvKey, SupersedingRow>, s: S.Store,
                        q: DeploymentQid, i: S.Info)
    requires IsStore(deployments, byId, active, supersessions, s)
    requires q in s.rows && s.rows[q].createdAt != i.createdAt
    ensures !IsStore(deployments[DeploymentKeyOf(q, i) := DeploymentRowOf(q, i)],
                     byId[PrintDeployment(q) := ByIdRowOf(q, i)],
                     if i.state == S.Down then active - {EnvKeyOf(q)} else active[EnvKeyOf(q) := PrintDeployment(q)],
                     supersessions, s.(rows := s.rows[q := i]))
  {
    hide ValidDeployment, PrintDeployment, PrintState;
    var stale := DeploymentKeyOf(q, s.rows[q]);
    assert Any(s.rows[q]) && stale in deployments;
    assert !IsKey(stale, s.rows[q := i], DeploymentKeyOf, Any);
  }

  lemma MarkKeepsStore(deployments: map<DeploymentKey, DeploymentRow>, byId: map<string, ByIdRow>,
                       active: map<EnvKey, string>, supersessions: map<EnvKey, SupersedingRow>, s: S.Store,
                       q: DeploymentQid, next: DeploymentId)
    requires IsStore(deployments, byId, active, supersessions, s) && ValidDeployment(q) && ValidDeploymentId(next)
    ensures IsStore(deployments, byId, active, supersessions[EnvKeyOf(q) := SupersedingRowOf(q, next)],
                    S.MarkSuperseded(s, q, next))
  {
    hide ValidDeployment, ValidDeploymentId, IsView;
    WriteKeepsView(supersessions, s.supersededBy, SupersededKeyOf, SupersedingRowOf, AnyId, q, next);
  }

  /** `d` is a known deployment that is not down. */
  ghost predicate ActiveIn(s: S.Store, d: Deployment) {
    d.qid in s.rows && d.info == s.rows[d.qid] && d.info.state != S.Down
  }

  ghost predicate DistinctIds(ds: seq<Deployment>) {
    forall i, j :: 0 <= i < j < |ds| ==> ds[i].qid != ds[j].qid
  }

  lemma {:induction false} LatestKey(keys: set<DeploymentKey>)
    requires keys != {}
    ensures exists k :: k in keys && forall j :: j in keys ==> j.createdAt <= k.createdAt
    decreases keys
  {
    var k :| k in keys;
    if keys != {k} {
      LatestKey(keys - {k});
      var l :| l in keys - {k} && forall j :: j in keys - {k} ==> j.createdAt <= l.createdAt;
      var best := if l.createdAt >= k.createdAt then l else k;
      assert best in keys && forall j :: j in keys ==> j.createdAt <= best.createdAt;
    }
  }

  class Tables {
    var deployments: map<DeploymentKey, DeploymentRow>
    var byId: map<string, ByIdRow>
    var active: map<EnvKey, string>
    var supersessions: map<EnvKey, SupersedingRow>
    ghost var view: S.Store

    ghost predicate Valid()
      reads this
    {
      IsStore(deployments, byId, active, supersessions, view)
    }

    /** A key of the first index leads to its deployment. */
    lemma LookUpById(q: DeploymentQid)
      requires Valid() && ValidDeployment(q)
      ensures PrintDeployment(q) in byId <==> q in view.rows
      ensures q in view.rows ==> byId[PrintDeployment(q)] == ByIdRowOf(q, view.rows[q])
    {
      hide ValidDeployment, PrintDeployment;
      var i := S.Info(0, S.Down, false);
      DeploymentsHaveOwnKeys(view.rows, q, i);
    }

    /** The active index lists a deployment exactly when it is not down. */
    lemma ListedActive(q: DeploymentQid)
      requires Valid() && ValidDeployment(q)
      ensures EnvKeyOf(q) in active <==> q in view.rows && view.rows[q].state != S.Down
      ensures EnvKeyOf(q) in active ==> active[EnvKeyOf(q)] == PrintDeployment(q)
    {
    }

    lemma ActiveOwner(k: EnvKey) returns (q: DeploymentQid)
      requires Valid() && k in active
      ensures q in view.rows && ValidDeployment(q) && k == EnvKeyOf(q)
    {
      hide ValidDeployment, PrintDeployment;
      q :| q in view.rows && NotDown(view.rows[q]) && k == ActiveKeyOf(q, view.rows[q]);
    }

    lemma LookUpSuperseded(q: DeploymentQid)
      requires Valid() && ValidDeployment(q)
      ensures EnvKeyOf(q) in supersessions <==> q in view.supersededBy
      ensures q in view.supersededBy ==>
                && ValidDeploymentId(view.supersededBy[q])
                && supersessions[EnvKeyOf(q)] == SupersedingRowOf(q, view.supersededBy[q])
    {
    }

    /** Every known deployment has a valid id. */
    lemma KnownIsValid(q: DeploymentQid)
      requires Valid() && q in view.rows
      ensures ValidDeployment(q)
    {
    }

    constructor ()
      ensures Valid() && view == S.EMPTY
    {
      deployments, byId, active, supersessions := map[], map[], map[], map[];
      view := S.EMPTY;
    }

    method FindDeployment(q: DeploymentQid) returns (r: Result<Deployment, QueryError>)
      requires Valid() && ValidDeployment(q)
      ensures r == if q in view.rows then Ok(Deployment(q, view.rows[q])) else Err(NotFound)
    {
      hide IsStore, ValidDeployment, PrintDeployment, FromRow;
      LookUpById(q);
      var key := PrintDeployment(q);
      if key !in byId {
        return Err(NotFound);
      }
      RowReadsBack(q, view.rows[q]);
      var row := byId[key];
      if row.org != q.environment.repo.org || row.repo != q.environment.repo.repo {
        return Err(NotFound);
      }
      r := FromRow(row);
    }

    /** Write one deployment to the three tables. They stay views exactly when the deployment is new
        or keeps its creation time; otherwise its old row stays behind. */
    method SetDeployment(d: Deployment)
      requires Valid() && ValidDeployment(d.qid)
      modifies this
      ensures Valid() <==> (d.qid in old(view).rows ==> old(view).rows[d.qid].createdAt == d.info.createdAt)
      ensures view == old(view).(rows := old(view).rows[d.qid := d.info])
    {
      hide IsStore, ValidDeployment, PrintDeployment, PrintState;
      var q, i := d.qid, d.info;
      if q in view.rows ==> view.rows[q].createdAt == i.createdAt {
        WriteKeepsStore(deployments, byId, active, supersessions, view, q, i);
      } else {
        StaleRowRemains(deployments, byId, active, supersessions, view, q, i);
      }
      deployments := deployments[DeploymentKeyOf(q, i) := DeploymentRowOf(q, i)];
      byId := byId[PrintDeployment(q) := ByIdRowOf(q, i)];
      if i.state == S.Down {
        active := active - {EnvKeyOf(q)};
      } else {
        active := active[EnvKeyOf(q) := PrintDeployment(q)];
      }
      view := view.(rows := view.rows[q := i]);
    }

    method Set(q: DeploymentQid, state: S.DeploymentState, now: int)
      requires Valid() && ValidDeployment(q)
      modifies this
      ensures Valid() && view == S.Set(old(view), q, state, now)
      ensures q in view.rows && view.supersededBy == old(view).supersededBy
      ensures view.rows[q].state ==
              if q in old(view).rows && old(view).rows[q].state == S.Down && state == S.Undesired then S.Down else state
      ensures if q in old(view).rows
              then view.rows[q].createdAt == old(view).rows[q].createdAt &&
                   view.rows[q].bootstrapped == old(view).rows[q].bootstrapped
              else view.rows[q].createdAt == now && !view.rows[q].bootstrapped
      ensures view.rows - {q} == old(view).rows - {q}
    {
      hide IsStore, ValidDeployment;
      var prev := FindDeployment(q);
      if prev.Ok? && prev.value.info.state == S.Down && state == S.Undesired {
        return;
      }
      var createdAt := if prev.Ok? then prev.value.info.createdAt else now;
      var bootstrapped := if prev.Ok? then prev.value.info.bootstrapped else false;
      SetDeployment(Deployment(q, S.Info(createdAt, state, bootstrapped)));
    }

    method SetProgress(q: DeploymentQid, bootstrapped: bool) returns (r: Result<(), QueryError>)
      requires Valid() && ValidDeployment(q)
      modifies this
      ensures Valid()
      ensures r.Ok? <==> S.SetProgress(old(view), q, bootstrapped).Some?
      ensures view == if r.Ok? then S.SetProgress(old(view), q, bootstrapped).value else old(view)
      ensures r.Ok? <==> q in old(view).rows
      ensures r.Ok? ==> view.rows == old(view).rows[q := old(view).rows[q].(bootstrapped := bootstrapped)]
      ensures view.supersededBy == old(view).supersededBy
    {
      hide IsStore, ValidDeployment;
      var prev := FindDeployment(q);
      if prev.Err? {
        return Err(prev.error);
      }
      SetDeployment(Deployment(q, prev.value.info.(bootstrapped := bootstrapped)));
      r := Ok(());
    }

    method MarkSupersededBy(q: DeploymentQid, next: DeploymentId)
      requires Valid() && ValidDeployment(q) && ValidDeploymentId(next)
      modifies this
      ensures Valid() && view == S.MarkSuperseded(old(view), q, next)
      ensures view.rows == old(view).rows && view.supersededBy == old(view).supersededBy[q := next]
    {
      hide IsStore, ValidDeployment, ValidDeploymentId;
      MarkKeepsStore(deployments, byId, active, supersessions, view, q, next);
      supersessions := supersessions[EnvKeyOf(q) := SupersedingRowOf(q, next)];
      view := view.(supersededBy := view.supersededBy[q := next]);
    }

    method GetSuperseding(q: DeploymentQid) returns (r: Option<DeploymentQid>)
      requires Valid() && ValidDeployment(q)
      ensures r == if q in view.supersededBy then Some(S.In(q.environment, view.supersededBy[q])) else None
    {
      hide IsStore, ValidDeployment, ValidDeploymentId;
      LookUpSuperseded(q);
      var key := EnvKeyOf(q);
      if key !in supersessions {
        return None;
      }
      var row := supersessions[key];
      r := Some(S.In(q.environment, DeploymentId(row.commit, AsU64(row.nonce))));
    }

    lemma SupersededOwner(k: EnvKey) returns (p: DeploymentQid)
      requires Valid() && k in supersessions
      ensures p in view.supersededBy && ValidDeployment(p) && ValidDeploymentId(view.supersededBy[p])
      ensures k == EnvKeyOf(p) && supersessions[k] == SupersedingRowOf(p, view.supersededBy[p])
    {
      hide ValidDeployment, ValidDeploymentId;
      p :| p in view.supersededBy && AnyId(view.supersededBy[p]) && k == SupersededKeyOf(p, view.supersededBy[p]);
    }

    lemma SupersededIsValid(p: DeploymentQid)
      requires Valid() && p in view.supersededBy
      ensures ValidDeployment(p)
    {
    }

    /** The deployments that `q` took over from. */
    method Superseded(q: DeploymentQid) returns (r: set<DeploymentQid>)
      requires Valid() && ValidDeployment(q)
      ensures forall p :: p in r <==>
                p in view.supersededBy && p.environment == q.environment && view.supersededBy[p] == q.deployment
    {
      hide IsStore, ValidDeployment, ValidDeploymentId;
      r := {};
      var keys := supersessions.Keys;
      while keys != {}
        invariant keys <= supersessions.Keys
        invariant forall p :: p in r <==>
                    && p in view.supersededBy && p.environment == q.environment && view.supersededBy[p] == q.deployment
                    && EnvKeyOf(p) in supersessions.Keys - keys
      {
        var k :| k in keys;
        ghost var p := SupersededOwner(k);
        keys := keys - {k};
        var row := supersessions[k];
        if k.org == q.environment.repo.org && k.repo == q.environment.repo.repo &&
           k.environment == q.environment.environment &&
           row.commit == q.deployment.commit && AsU64(row.nonce) == q.deployment.nonce {
          r := r + {S.In(q.environment, DeploymentId(k.commit, AsU64(k.nonce)))};
        }
      }
      forall p | p in view.supersededBy
        ensures EnvKeyOf(p) in supersessions
      {
        SupersededIsValid(p);
        LookUpSuperseded(p);
      }
    }

    /** The deployments of a repository that are not down, each once, in some order. */
    method ActiveDeployments(repo: RepoQid) returns (r: seq<Deployment>)
      requires Valid()
      ensures forall d :: d in r <==> d.qid.environment.repo == repo && ActiveIn(view, d)
      ensures DistinctIds(r)
    {
      hide IsStore, ValidDeployment, PrintDeployment, FromRow;
      r := [];
      var keys := active.Keys;
      while keys != {}
        invariant keys <= active.Keys
        invariant forall d :: d in r <==>
                    d.qid.environment.repo == repo && ActiveIn(view, d) && EnvKeyOf(d.qid) in active.Keys - keys
        invariant DistinctIds(r)
      {
        var k :| k in keys;
        ghost var q := ActiveOwner(k);
        ListedActive(q);
        LookUpById(q);
        RowReadsBack(q, view.rows[q]);
        keys := keys - {k};
        if k.org == repo.org && k.repo == repo.repo {
          var d := FromRow(byId[active[k]]).value;
          r := r + [d];
        }
      }
      forall d | ActiveIn(view, d)
        ensures EnvKeyOf(d.qid) in active
      {
        KnownIsValid(d.qid);
        ListedActive(d.qid);
      }
    }

    /** All deployments of a repository, each once, the youngest first, from the table that is ordered
        by creation time. */
    method Deployments(repo: RepoQid) returns (r: seq<Deployment>)
      requires Valid()
      ensures forall d :: d in r <==>
                d.qid in view.rows && d.qid.environment.repo == repo && d.info == view.rows[d.qid]
      ensures DistinctIds(r)
      ensures forall i, j :: 0 <= i < j < |r| ==> r[i].info.createdAt >= r[j].info.createdAt
    {
      hide IsStore, ValidDeployment, PrintDeployment, FromRow, PrintState;
      r := [];
      var keys := deployments.Keys;
      while keys != {}
        invariant keys <= deployments.Keys
        invariant forall d :: d in r <==>
                    d.qid in view.rows && d.qid.environment.repo == repo && d.info == view.rows[d.qid] &&
                    DeploymentKeyOf(d.qid, d.info) in deployments.Keys - keys
        invariant DistinctIds(r)
        invariant forall d, k :: d in r && k in keys ==> d.info.createdAt >= k.createdAt
        invariant forall i, j :: 0 <= i < j < |r| ==> r[i].info.createdAt >= r[j].info.createdAt
      {
        LatestKey(keys);
        var k :| k in keys && forall j :: j in keys ==> j.createdAt <= k.createdAt;
        ghost var q := DeploymentOwner(k);
        RowReadsBack(q, view.rows[q]);
        keys := keys - {k};
        if k.org == repo.org && k.repo == repo.repo {
          var row := deployments[k];
          var d := FromRow(ByIdRow(k.org, k.repo, k.environment, k.commit, k.nonce, k.createdAt, row.state,
                                   row.bootstrapped)).value;
          r := r + [d];
        }
      }
      forall d: Deployment | d.qid in view.rows && d.info == view.rows[d.qid]
        ensures DeploymentKeyOf(d.qid, d.info) in deployments
      {
        InDeployments(d.qid);
      }
    }

    lemma DeploymentOwner(k: DeploymentKey) returns (q: DeploymentQid)
      requires Valid() && k in deployments
      ensures q in view.rows && ValidDeployment(q) && k == DeploymentKeyOf(q, view.rows[q])
      ensures deployments[k] == DeploymentRowOf(q, view.rows[q])
    {
      hide ValidDeployment, PrintDeployment;
      q :| q in view.rows && Any(view.rows[q]) && k == DeploymentKeyOf(q, view.rows[q]);
    }

    lemma InDeployments(q: DeploymentQid)
      requires Valid() && q in view.rows
      ensures DeploymentKeyOf(q, view.rows[q]) in deployments
    {
      hide ValidDeployment, PrintDeployment;
      assert Any(view.rows[q]);
    }

    /** A current deployment of the environment if there is one. */
    method CurrentDeployment(env: EnvironmentQid) returns (r: Option<Deployment>)
      requires Valid() && ValidEnvironment(env)
      ensures r.Some? ==> S.IsCurrent(view, env, r.value.qid) && r.value.info == view.rows[r.value.qid]
      ensures r.Some? ==> r.value.qid.environment == env && r.value.info.state != S.Down &&
                          r.value.qid !in view.supersededBy
      ensures r.None? ==> forall p :: !S.IsCurrent(view, env, p)
      ensures r.None? ==> forall p :: p in view.rows && p.environment == env && view.rows[p].state != S.Down ==>
                            p in view.supersededBy
    {
      hide IsStore, ValidDeployment;
      var all := ActiveDeployments(env.repo);
      var candidates: seq<Deployment> := [];
      for i := 0 to |all|
        invariant forall d :: d in candidates <==> d in all[..i] && d.qid.environment == env
      {
        if all[i].qid.environment == env {
          candidates := candidates + [all[i]];
        }
      }
      for i := 0 to |candidates|
        invariant forall j :: 0 <= j < i ==> candidates[j].qid in view.supersededBy
      {
        KnownIsValid(candidates[i].qid);
        var superseding := GetSuperseding(candidates[i].qid);
        if superseding.None? {
          return Some(candidates[i]);
        }
      }
      forall p | p in view.rows && p.environment == env && view.rows[p].state != S.Down
        ensures p in view.supersededBy
      {
        assert ActiveIn(view, Deployment(p, view.rows[p])) && Deployment(p, view.rows[p]) in candidates;
      }
      r := None;
    }

    /** The desired deployments of `q`'s environment other than `q`. */
    method FindRivals(q: DeploymentQid) returns (r: seq<Deployment>)
      requires Valid() && ValidDeployment(q)
      ensures forall d :: d in r ==> d.qid in S.Rivals(view, q)
      ensures forall p :: p in S.Rivals(view, q) ==> exists d :: d in r && d.qid == p
      ensures DistinctIds(r)
    {
      hide IsStore, ValidDeployment;
      var all := ActiveDeployments(q.environment.repo);
      r := [];
      for i := 0 to |all|
        invariant forall d :: d in r <==>
                    d in all[..i] && d.qid.environment == q.environment && d.qid != q && d.info.state == S.Desired
        invariant DistinctIds(r)
      {
        var dep := all[i];
        if dep.qid.environment != q.environment {
          continue;
        }
        if dep.qid.deployment == q.deployment {
          continue;
        }
        if dep.info.state == S.Desired {
          r := r + [dep];
        }
      }
      forall p | p in S.Rivals(view, q)
        ensures exists d :: d in r && d.qid == p
      {
        assert Deployment(p, view.rows[p]) in r;
      }
    }

    /** Promote `q`, taking over from whatever is desired in its environment. */
    method MakeDesired(q: DeploymentQid, now: int)
      requires Valid() && ValidDeployment(q)
      modifies this
      ensures Valid() && view == S.MakeDesired(old(view), q, now)
      ensures q in view.rows && view.rows[q].state == S.Desired
      ensures forall p | p in old(view).rows && p != q && p.environment == q.environment ::
                old(view).rows[p].state == S.Desired ==> S.TakenOver(old(view), view, p, q)
    {
      hide IsStore, ValidDeployment, ValidDeploymentId, S.Set, S.MarkSuperseded, S.Demote;
      IdOfValid(q);
      var rivals := FindRivals(q);
      ghost var done: set<DeploymentQid> := {};
      S.DemoteNone(view, q.deployment);
      forall d | d in rivals
        ensures ValidDeployment(d.qid)
      {
        KnownIsValid(d.qid);
      }
      for i := 0 to |rivals|
        invariant Valid()
        invariant forall p :: p in done <==> exists j :: 0 <= j < i && rivals[j].qid == p
        invariant view == S.Demote(old(view), done, q.deployment)
      {
        var p := rivals[i].qid;
        assert rivals[i] in rivals && p in S.Rivals(old(view), q) && p !in done;
        Set(p, S.Lingering, now);
        MarkSupersededBy(p, q.deployment);
        S.DemoteOneMore(old(view), done, p, q.deployment, now);
        done := done + {p};
      }
      assert done == S.Rivals(old(view), q);
      Set(q, S.Desired, now);
      forall p | p in old(view).rows
        ensures p in S.Rivals(old(view), q) ==> S.TakenOver(old(view), view, p, q)
      {
        S.PromotionTakesOver(old(view), q, now, p);
      }
    }

    // ----- whole runs -----

    /** One operation on the tables is one step of the state machine. */
    method Step(op: S.Op)
      requires Valid() && ValidDeployment(op.q)
      modifies this
      ensures Valid() && view == S.Apply(old(view), op)
    {
      hide IsStore, ValidDeployment, S.Set, S.MakeDesired;
      match op
      case OpSet(q, state, now) => Set(q, state, now);
      case OpProgress(q, bootstrapped) => var _ := SetProgress(q, bootstrapped);
      case OpMakeDesired(q, now) => MakeDesired(q, now);
    }

    /** A run on new tables leaves them in the state the machine reaches. */
    method Execute(ops: seq<S.Op>)
      requires Valid() && view == S.EMPTY && forall op :: op in ops ==> ValidDeployment(op.q)
      modifies this
      ensures Valid() && view == S.Run(ops)
    {
      hide IsStore, ValidDeployment, S.Apply;
      for i := 0 to |ops|
        invariant Valid() && view == S.Run(ops[..i])
      {
        assert ops[..i + 1][..i] == ops[..i];
        Step(ops[i]);
      }
      assert ops[..|ops|] == ops;
    }
  }

  /** After an orderly run on new tables, `current_deployment` returns the last promoted deployment of
      the environment, which is desired, and nothing if none was promoted. */
  method CurrentAfter(ops: seq<S.Op>, env: EnvironmentQid) returns (r: Option<Deployment>)
    requires ValidEnvironment(env) && forall op :: op in ops ==> ValidDeployment(op.q)
    requires S.OrderlyRun(ops)
    ensures r.Some? <==> S.Promoted(ops, env) != []
    ensures r.Some? ==>
              && r.value.qid == S.In(env, S.Promoted(ops, env)[|S.Promoted(ops, env)| - 1])
              && r.value.info.state == S.Desired
  {
    hide IsStore, ValidDeployment, ValidEnvironment, S.Run, S.Promoted;
    var tables := new Tables();
    tables.Execute(ops);
    r := tables.CurrentDeployment(env);
    ghost var h := S.Promoted(ops, env);
    if r.Some? {
      S.CurrentIsLastPromoted(ops, env, r.value.qid);
    } else if h != [] {
      S.CurrentIsLastPromoted(ops, env, S.In(env, h[|h| - 1]));
    }
  }
}
