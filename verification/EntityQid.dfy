/** Who owns an entity QID. Entities are deployments or resources, told apart only by trying the
    deployment parser first, although some printed resource QIDs also parse as deployments. */
module EntityQid {
  import opened Prelude
  import opened Text
  import opened Ids

  function IncidentEnvironment(s: string): (r: Option<EnvironmentQid>) {
    if ParseDeployment(s).Some? then Some(ParseDeployment(s).value.environment)
    else if ParseResource(s).Some? then Some(ParseResource(s).value.environment)
    else None
  }

  function IncidentRepo(s: string): (r: Option<RepoQid>) {
    if ParseDeployment(s).Some? then Some(ParseDeployment(s).value.environment.repo)
    else if ParseResource(s).Some? then Some(ParseResource(s).value.environment.repo)
    else None
  }

  function ExtractOrg(s: string): (r: Option<string>) {
    if ParseDeployment(s).Some? then Some(ParseDeployment(s).value.environment.repo.org)
    else if ParseResource(s).Some? then Some(ParseResource(s).value.environment.repo.org)
    else None
  }

  /** The text ends in `@` and a deployment id. */
  predicate EndsLikeDeployment(s: string) {
    RSplitOnce(s, "@").Some? && ParseDeploymentId(RSplitOnce(s, "@").value.1).Some?
  }

  /** For a deployment all three answers are right. */
  lemma DeploymentOwner(q: DeploymentQid)
    requires ValidDeployment(q)
    ensures IncidentEnvironment(PrintDeployment(q)) == Some(q.environment)
    ensures IncidentRepo(PrintDeployment(q)) == Some(q.environment.repo)
    ensures ExtractOrg(PrintDeployment(q)) == Some(q.environment.repo.org)
  {
    DeploymentReadsBack(q);
  }

  lemma LastCharIn(s: string, c: char)
    ensures RSplitOnce(s, [c]).Some? <==> c in s
    ensures RSplitOnce(s, [c]).Some? ==> c !in RSplitOnce(s, [c]).value.1
  {
    if c in s {
      var i :| 0 <= i < |s| && s[i] == c;
      assert OccursAt(s, [c], i);
    }
    if RSplitOnce(s, [c]).Some? {
      var k := FindLast(s, [c]).value;
      forall i | k < i < |s|
        ensures s[i] != c
      {
        assert !OccursAt(s, [c], i);
      }
    }
  }

  /** Splitting at the last `c` of a concatenation looks at the second part first. */
  lemma RSplitOnceOfConcat(a: string, b: string, c: char)
    ensures var r := RSplitOnce(a + b, [c]);
            if c in b then
              && RSplitOnce(b, [c]).Some?
              && r == Some((a + RSplitOnce(b, [c]).value.0, RSplitOnce(b, [c]).value.1))
            else if c in a then
              && RSplitOnce(a, [c]).Some?
              && r == Some((RSplitOnce(a, [c]).value.0, RSplitOnce(a, [c]).value.1 + b))
            else r.None?
  {
    hide RSplitOnce;
    LastCharIn(a, c);
    LastCharIn(b, c);
    LastCharIn(a + b, c);
    if c in b {
      var (x, y) := RSplitOnce(b, [c]).value;
      assert a + b == (a + x) + [c] + y;
      RSplitOnceChar(a + x, c, y);
    } else if c in a {
      var (x, y) := RSplitOnce(a, [c]).value;
      assert a + b == x + [c] + (y + b);
      RSplitOnceChar(x, c, y + b);
    }
  }

  /** Text after a printed environment lengthens the environment and leaves the repository. */
  lemma EnvironmentThenText(q: EnvironmentQid, t: string)
    requires ValidEnvironment(q)
    ensures ParseEnvironment(PrintEnvironment(q) + t) == Some(EnvironmentQid(q.repo, q.environment + t))
  {
    SplitOnceAt(PrintRepo(q.repo), "::", q.environment);
    SplitOnceOfPrefix(PrintEnvironment(q), t, "::");
    RepoReadsBack(q.repo);
  }

  lemma ColonIsNoDeploymentId(s: string)
    requires ':' in s
    ensures ParseDeploymentId(s).None?
  {
  }

  /** What the deployment parser makes of a printed environment, text ending in a colon and a name. */
  lemma DeploymentAfterColon(q: EnvironmentQid, t: string, name: string)
    requires ValidEnvironment(q) && t != [] && t[|t| - 1] == ':'
    ensures var r := ParseDeployment(PrintEnvironment(q) + t + name);
            && (r.Some? <==> EndsLikeDeployment(name))
            && (r.Some? ==> r.value.environment.repo == q.repo && r.value.environment != q)
  {
    var a := PrintEnvironment(q) + t;
    RSplitOnceOfConcat(a, name, '@');
    LastCharIn(name, '@');
    if '@' in name {
      var x := RSplitOnce(name, "@").value.0;
      assert a + x == PrintEnvironment(q) + (t + x);
      EnvironmentThenText(q, t + x);
    } else if '@' in a {
      LastColonStays(a, name);
    }
  }

  /** A printed resource QID parses as a deployment exactly when the resource's name ends in `@` and
      a deployment id; the repository read is then still right, and the environment never is. */
  lemma ResourceReadAsDeployment(q: ResourceQid)
    requires ValidResource(q)
    ensures ParseDeployment(PrintResource(q)).Some? <==> EndsLikeDeployment(q.resource.name)
    ensures ParseDeployment(PrintResource(q)).Some? ==>
              && ParseDeployment(PrintResource(q)).value.environment.repo == q.environment.repo
              && ParseDeployment(PrintResource(q)).value.environment != q.environment
  {
    var t := "::" + q.resource.region + ":" + q.resource.typ + ":";
    assert PrintResource(q) == PrintEnvironment(q.environment) + t + q.resource.name;
    DeploymentAfterColon(q.environment, t, q.resource.name);
  }

  /** An `@` before a colon introduces no deployment id. */
  lemma LastColonStays(a: string, name: string)
    requires '@' in a && a[|a| - 1] == ':'
    ensures RSplitOnce(a, "@").Some?
    ensures ParseDeploymentId(RSplitOnce(a, "@").value.1 + name).None?
  {
    LastCharIn(a, '@');
    var (x, y) := RSplitOnce(a, "@").value;
    ColonIsNoDeploymentId(y + name);
  }

  /** For a resource the organisation and the repository are always right, and the environment is
      right exactly when the name does not end like a deployment. */
  lemma ResourceOwner(q: ResourceQid)
    requires ValidResource(q)
    ensures ExtractOrg(PrintResource(q)) == Some(q.environment.repo.org)
    ensures IncidentRepo(PrintResource(q)) == Some(q.environment.repo)
    ensures IncidentEnvironment(PrintResource(q)) == Some(q.environment) <==>
            !EndsLikeDeployment(q.resource.name)
  {
    ResourceReadAsDeployment(q);
    ResourceReadsBack(q);
  }

  /** A resource whose environment is misread. */
  lemma MisreadEnvironment(q: ResourceQid, prefix: string, d: DeploymentId)
    requires ValidResource(q) && ValidDeploymentId(d)
    requires q.resource.name == prefix + "@" + PrintDeploymentId(d)
    ensures IncidentEnvironment(PrintResource(q)) != Some(q.environment)
  {
    DeploymentIdHasNo(d, '@');
    RSplitOnceChar(prefix, '@', PrintDeploymentId(d));
    DeploymentIdReadsBack(d);
    ResourceOwner(q);
  }

  /** Whatever text is accepted names an entity that owns it: a deployment or a resource. */
  lemma AcceptedTextIsAnEntity(s: string)
    ensures ExtractOrg(s).Some? <==>
            || (exists q: DeploymentQid :: ValidDeployment(q) && PrintDeployment(q) == s)
            || (exists q: ResourceQid :: ValidResource(q) && PrintResource(q) == s)
    ensures IncidentEnvironment(s).Some? <==> ExtractOrg(s).Some?
    ensures IncidentRepo(s).Some? <==> ExtractOrg(s).Some?
  {
    if ParseDeployment(s).Some? {
      DeploymentPrintsBack(s);
    }
    if ParseResource(s).Some? {
      ResourcePrintsBack(s);
    }
    if q: DeploymentQid :| ValidDeployment(q) && PrintDeployment(q) == s {
      DeploymentReadsBack(q);
    }
    if q: ResourceQid :| ValidResource(q) && PrintResource(q) == s {
      ResourceReadsBack(q);
    }
  }
}
