/** Skyr identifiers: how qualified identifiers are printed, and how their parsers split on the
    first or last of separators that also occur inside environment names. A parser that rejects
    its input gives `None`; the errors of the original carry only the rejected text. */
module Ids {
  import opened Prelude
  import opened Text
  import opened Bits

  /** A `u64`. */
  type Nonce = n: int | IsU64(n) witness 0

  datatype RepoQid = RepoQid(org: string, repo: string)
  datatype EnvironmentQid = EnvironmentQid(repo: RepoQid, environment: string)

  /** A commit hash, its 20 bytes read as one number, and a nonce. */
  datatype DeploymentId = DeploymentId(commit: nat, nonce: Nonce)
  datatype DeploymentQid = DeploymentQid(environment: EnvironmentQid, deployment: DeploymentId)

  datatype ResourceId = ResourceId(region: string, typ: string, name: string)
  datatype ResourceQid = ResourceQid(environment: EnvironmentQid, resource: ResourceId)

  // ----- validation -----

  predicate IsLower(c: char) { 'a' <= c <= 'z' }
  predicate IsDigit(c: char) { '0' <= c <= '9' }
  predicate IsAlpha(c: char) { IsLower(c) || 'A' <= c <= 'Z' }

  predicate ValidSymbol(s: string) {
    && s != []
    && (IsAlpha(s[0]) || s[0] == '_')
    && forall i :: 0 < i < |s| ==> IsAlpha(s[i]) || IsDigit(s[i]) || s[i] == '_'
  }

  /** A symbol is letters, digits and underscores, and does not start with a digit. */
  lemma SymbolIff(s: string)
    ensures ValidSymbol(s) <==>
            && s != [] && !IsDigit(s[0])
            && forall c :: c in s ==> 'a' <= c <= 'z' || 'A' <= c <= 'Z' || '0' <= c <= '9' || c == '_'
  {
    assert forall i :: 0 <= i < |s| ==> s[i] in s;
    if ValidSymbol(s) {
      forall c | c in s
        ensures IsAlpha(c) || IsDigit(c) || c == '_'
      {
        var i :| 0 <= i < |s| && s[i] == c;
      }
    }
  }

  predicate ValidRegion(s: string) {
    s != [] && forall c :: c in s ==> IsLower(c)
  }

  predicate IsHexDigit(c: char) { IsDigit(c) || 'a' <= c <= 'f' }

  predicate IsHex(s: string) {
    forall c :: c in s ==> IsHexDigit(c)
  }

  predicate ValidRepo(q: RepoQid) {
    ValidSymbol(q.org) && ValidSymbol(q.repo)
  }

  predicate ValidEnvironment(q: EnvironmentQid) {
    ValidRepo(q.repo) && q.environment != []
  }

  predicate ValidDeploymentId(d: DeploymentId) {
    d.commit < Pow16(40)
  }

  predicate ValidDeployment(q: DeploymentQid) {
    ValidEnvironment(q.environment) && ValidDeploymentId(q.deployment)
  }

  predicate NoColons(s: string) {
    Find(s, "::").None?
  }

  predicate ValidResourceId(r: ResourceId) {
    && ValidRegion(r.region)
    && r.typ != [] && ':' !in r.typ
    && r.name != [] && r.name[0] != ':' && NoColons(r.name)
  }

  predicate ValidResource(q: ResourceQid) {
    ValidEnvironment(q.environment) && ValidResourceId(q.resource)
  }

  // ----- hexadecimal -----

  function Pow16(w: nat): (r: nat)
    ensures r > 0
  {
    if w == 0 then 1 else 16 * Pow16(w - 1)
  }

  lemma SixteenDigitsAreU64()
    ensures Pow16(16) == TWO_64
  {
    assert Pow16(4) == 0x1_0000;
  }

  function HexDigit(d: nat): (c: char)
    requires d < 16
    ensures IsHexDigit(c) && DigitValue(c) == d
  {
    if d < 10 then '0' + d as char else 'a' + (d - 10) as char
  }

  function DigitValue(c: char): (d: nat)
    requires IsHexDigit(c)
    ensures d < 16
  {
    if IsDigit(c) then (c - '0') as nat else (c - 'a') as nat + 10
  }

  /** `n` in lowercase hexadecimal, zero-padded to `w` digits. */
  function HexPad(n: nat, w: nat): (s: string)
    ensures |s| == w && IsHex(s)
  {
    if w == 0 then [] else HexPad(n / 16, w - 1) + [HexDigit(n % 16)]
  }

  function HexValue(s: string): (n: nat)
    requires IsHex(s)
    ensures n < Pow16(|s|)
  {
    if s == [] then 0
    else 16 * HexValue(s[..|s| - 1]) + DigitValue(s[|s| - 1])
  }

  lemma {:induction false} HexReadsBack(n: nat, w: nat)
    requires n < Pow16(w)
    ensures HexValue(HexPad(n, w)) == n
  {
    if w > 0 {
      HexReadsBack(n / 16, w - 1);
    }
  }

  lemma DigitPrintsBack(c: char)
    requires IsHexDigit(c)
    ensures HexDigit(DigitValue(c)) == c
  {
  }

  lemma HexPadStep(v: nat, d: nat, w: nat)
    requires d < 16
    ensures HexPad(16 * v + d, w + 1) == HexPad(v, w) + [HexDigit(d)]
  {
  }

  lemma {:induction false} HexPrintsBack(s: string)
    requires IsHex(s)
    ensures HexPad(HexValue(s), |s|) == s
  {
    if s != [] {
      var init, c := s[..|s| - 1], s[|s| - 1];
      HexPrintsBack(init);
      DigitPrintsBack(c);
      HexPadStep(HexValue(init), DigitValue(c), |init|);
    }
  }

  /** Digit `i` of `w` has the weight 16 to the power `w - 1 - i`. */
  lemma {:induction false} HexPadDigit(n: nat, w: nat, i: nat)
    requires i < w
    ensures HexPad(n, w)[i] == "0123456789abcdef"[n / Pow16(w - 1 - i) % 16]
    decreases w
  {
    if i < w - 1 {
      HexPadDigit(n / 16, w - 1, i);
      DivideInTwo(n, 16, Pow16(w - 2 - i));
    } else {
      assert n / Pow16(0) == n;
      HexDigitIs(n % 16);
    }
  }

  lemma HexDigitIs(d: nat)
    requires d < 16
    ensures HexDigit(d) == "0123456789abcdef"[d]
  {
  }

  // ----- printers -----

  function PrintRepo(q: RepoQid): string {
    q.org + "/" + q.repo
  }

  function PrintEnvironment(q: EnvironmentQid): string {
    PrintRepo(q.repo) + "::" + q.environment
  }

  function PrintDeploymentId(d: DeploymentId): string {
    HexPad(d.commit, 40) + "." + HexPad(d.nonce, 16)
  }

  function PrintDeployment(q: DeploymentQid): string {
    PrintEnvironment(q.environment) + "@" + PrintDeploymentId(q.deployment)
  }

  function PrintResourceId(r: ResourceId): string {
    r.region + ":" + r.typ + ":" + r.name
  }

  function PrintResource(q: ResourceQid): string {
    PrintEnvironment(q.environment) + "::" + PrintResourceId(q.resource)
  }

  /** Where the parts of a printed repository, environment and deployment QID lie. */
  lemma DeploymentLayout(q: DeploymentQid)
    ensures var s, org, repo, env := PrintDeployment(q), |q.environment.repo.org|, |q.environment.repo.repo|,
                                     |q.environment.environment|;
            && |s| == org + repo + env + 61
            && s[..org] == q.environment.repo.org && s[org] == '/'
            && s[org + 1..org + 1 + repo] == q.environment.repo.repo
            && s[org + 1 + repo..org + 3 + repo] == "::"
            && s[org + 3 + repo..org + 3 + repo + env] == q.environment.environment
            && s[org + 3 + repo + env] == '@'
            && s[org + 4 + repo + env..org + 44 + repo + env] == HexPad(q.deployment.commit, 40)
            && s[org + 44 + repo + env] == '.'
            && s[org + 45 + repo + env..] == HexPad(q.deployment.nonce, 16)
    ensures PrintEnvironment(q.environment) <= PrintDeployment(q)
    ensures PrintRepo(q.environment.repo) <= PrintEnvironment(q.environment)
  {
  }

  /** Where the parts of a printed resource id lie, which ends a printed resource QID. */
  lemma ResourceLayout(q: ResourceQid)
    ensures var s, r := PrintResourceId(q.resource), q.resource;
            && |s| == |r.region| + |r.typ| + |r.name| + 2
            && s[..|r.region|] == r.region && s[|r.region|] == ':'
            && s[|r.region| + 1..|r.region| + 1 + |r.typ|] == r.typ && s[|r.region| + 1 + |r.typ|] == ':'
            && s[|r.region| + 2 + |r.typ|..] == r.name
    ensures var s, env := PrintResource(q), PrintEnvironment(q.environment);
            env <= s && s[|env|..|env| + 2] == "::" && s[|env| + 2..] == PrintResourceId(q.resource)
  {
  }

  // ----- parsers -----

  function ParseRepo(s: string): (r: Option<RepoQid>) {
    match SplitOnce(s, "/")
    case None => None
    case Some((org, repo)) =>
      if ValidSymbol(org) && ValidSymbol(repo) then Some(RepoQid(org, repo)) else None
  }

  function ParseEnvironment(s: string): (r: Option<EnvironmentQid>) {
    match SplitOnce(s, "::")
    case None => None
    case Some((repoPart, envPart)) =>
      var repo := ParseRepo(repoPart);
      if repo.Some? && envPart != [] then Some(EnvironmentQid(repo.value, envPart)) else None
  }

  function ParseDeploymentId(s: string): (r: Option<DeploymentId>) {
    match RSplitOnce(s, ".")
    case None => None
    case Some((commit, nonce)) =>
      if |commit| == 40 && IsHex(commit) && |nonce| == 16 && IsHex(nonce)
      then SixteenDigitsAreU64(); Some(DeploymentId(HexValue(commit), HexValue(nonce)))
      else None
  }

  function ParseDeployment(s: string): (r: Option<DeploymentQid>) {
    match RSplitOnce(s, "@")
    case None => None
    case Some((envPart, deployPart)) =>
      var environment := ParseEnvironment(envPart);
      var deployment := ParseDeploymentId(deployPart);
      if environment.Some? && deployment.Some?
      then Some(DeploymentQid(environment.value, deployment.value))
      else None
  }

  function ParseResourceId(s: string): (r: Option<ResourceId>) {
    match SplitOnce(s, ":")
    case None => None
    case Some((region, rest)) =>
      if !ValidRegion(region) then None
      else
        match SplitOnce(rest, ":")
        case None => None
        case Some((typ, name)) =>
          if typ == [] || name == [] then None
          else if ":" <= name || Find(name, "::").Some? then None
          else Some(ResourceId(region, typ, name))
  }

  function ParseResource(s: string): (r: Option<ResourceQid>) {
    match RSplitOnce(s, "::")
    case None => None
    case Some((envPart, resourcePart)) =>
      var environment := ParseEnvironment(envPart);
      var resource := ParseResourceId(resourcePart);
      if environment.Some? && resource.Some?
      then Some(ResourceQid(environment.value, resource.value))
      else None
  }

  // ----- printing, then parsing -----

  lemma RepoReadsBack(q: RepoQid)
    requires ValidRepo(q)
    ensures ParseRepo(PrintRepo(q)) == Some(q)
  {
    SplitOnceAt(q.org, "/", q.repo);
  }

  lemma EnvironmentReadsBack(q: EnvironmentQid)
    requires ValidEnvironment(q)
    ensures ParseEnvironment(PrintEnvironment(q)) == Some(q)
  {
    SplitOnceAt(PrintRepo(q.repo), "::", q.environment);
    RepoReadsBack(q.repo);
  }

  lemma DeploymentIdReadsBack(d: DeploymentId)
    requires ValidDeploymentId(d)
    ensures ParseDeploymentId(PrintDeploymentId(d)) == Some(d)
  {
    RSplitOnceChar(HexPad(d.commit, 40), '.', HexPad(d.nonce, 16));
    SixteenDigitsAreU64();
    HexReadsBack(d.commit, 40);
    HexReadsBack(d.nonce, 16);
  }

  lemma DeploymentIdHasNo(d: DeploymentId, c: char)
    requires c in "/:@"
    ensures c !in PrintDeploymentId(d)
  {
  }

  /** A printed deployment QID parses back, whatever its environment is called. */
  lemma DeploymentReadsBack(q: DeploymentQid)
    requires ValidDeployment(q)
    ensures ParseDeployment(PrintDeployment(q)) == Some(q)
  {
    RSplitOnceChar(PrintEnvironment(q.environment), '@', PrintDeploymentId(q.deployment));
    EnvironmentReadsBack(q.environment);
    DeploymentIdReadsBack(q.deployment);
  }

  lemma PrintResourceIdNested(region: string, typ: string, name: string)
    ensures PrintResourceId(ResourceId(region, typ, name)) == region + ":" + (typ + ":" + name)
  {
  }

  lemma ResourceIdReadsBack(r: ResourceId)
    requires ValidResourceId(r)
    ensures ParseResourceId(PrintResourceId(r)) == Some(r)
  {
    PrintResourceIdNested(r.region, r.typ, r.name);
    SplitOnceAt(r.region, ":", r.typ + ":" + r.name);
    SplitOnceAt(r.typ, ":", r.name);
  }

  /** A printed resource id holds no double colon. */
  lemma ResourceIdHasNoColons(r: ResourceId)
    requires ValidResourceId(r)
    ensures forall i: nat :: !OccursAt(PrintResourceId(r), "::", i)
  {
    var s, k, m := PrintResourceId(r), |r.region|, |r.typ|;
    forall i: nat
      ensures !OccursAt(s, "::", i)
    {
      if i < k {
        assert s[i..][0] == r.region[i] && r.region[i] in r.region;
      } else if i == k {
        assert s[i..][1] == r.typ[0];
      } else if i <= k + m {
        assert s[i..][0] == r.typ[i - k - 1] && r.typ[i - k - 1] in r.typ;
      } else if i == k + 1 + m {
        assert s[i..][1] == r.name[0];
      } else if i <= |s| {
        assert !OccursAt(r.name, "::", i - k - m - 2);
      }
    }
  }

  /** A printed resource QID parses back, whatever its environment is called. */
  lemma ResourceReadsBack(q: ResourceQid)
    requires ValidResource(q)
    ensures ParseResource(PrintResource(q)) == Some(q)
  {
    ResourceIdHasNoColons(q.resource);
    assert PrintResourceId(q.resource)[0] == q.resource.region[0] && IsLower(q.resource.region[0]);
    RSplitOnceColons(PrintEnvironment(q.environment), PrintResourceId(q.resource));
    EnvironmentReadsBack(q.environment);
    ResourceIdReadsBack(q.resource);
  }

  // ----- parsing, then printing -----

  lemma RepoPrintsBack(s: string)
    requires ParseRepo(s).Some?
    ensures ValidRepo(ParseRepo(s).value) && PrintRepo(ParseRepo(s).value) == s
  {
  }

  lemma EnvironmentPrintsBack(s: string)
    requires ParseEnvironment(s).Some?
    ensures ValidEnvironment(ParseEnvironment(s).value) && PrintEnvironment(ParseEnvironment(s).value) == s
  {
  }

  lemma DeploymentIdPrintsBack(s: string)
    requires ParseDeploymentId(s).Some?
    ensures ValidDeploymentId(ParseDeploymentId(s).value) && PrintDeploymentId(ParseDeploymentId(s).value) == s
  {
    var (commit, nonce) := RSplitOnce(s, ".").value;
    HexPrintsBack(commit);
    HexPrintsBack(nonce);
  }

  /** Every accepted deployment QID prints back to the text it was parsed from. */
  lemma DeploymentPrintsBack(s: string)
    requires ParseDeployment(s).Some?
    ensures ValidDeployment(ParseDeployment(s).value) && PrintDeployment(ParseDeployment(s).value) == s
  {
    var (envPart, deployPart) := RSplitOnce(s, "@").value;
    DeploymentIdPrintsBack(deployPart);
  }

  lemma ResourceIdPrintsBack(s: string)
    requires ParseResourceId(s).Some?
    ensures ValidResourceId(ParseResourceId(s).value) && PrintResourceId(ParseResourceId(s).value) == s
  {
    var (region, rest) := SplitOnce(s, ":").value;
    var (typ, name) := SplitOnce(rest, ":").value;
    NotBeforeFirst(rest, ':');
    PrintResourceIdNested(region, typ, name);
  }

  /** Every accepted resource QID prints back to the text it was parsed from. */
  lemma ResourcePrintsBack(s: string)
    requires ParseResource(s).Some?
    ensures ValidResource(ParseResource(s).value) && PrintResource(ParseResource(s).value) == s
  {
    var (envPart, resourcePart) := RSplitOnce(s, "::").value;
    ResourceIdPrintsBack(resourcePart);
  }

  /** Deployment QID strings can be used as keys. */
  lemma DeploymentKeysAreInjective(p: DeploymentQid, q: DeploymentQid)
    requires ValidDeployment(p) && ValidDeployment(q)
    requires PrintDeployment(p) == PrintDeployment(q)
    ensures p == q
  {
    DeploymentReadsBack(p);
    DeploymentReadsBack(q);
  }

  lemma ResourceKeysAreInjective(p: ResourceQid, q: ResourceQid)
    requires ValidResource(p) && ValidResource(q)
    requires PrintResource(p) == PrintResource(q)
    ensures p == q
  {
    ResourceReadsBack(p);
    ResourceReadsBack(q);
  }

  // ----- environments and Git refs -----

  /** The environment named by a full Git ref. */
  function FromGitRef(ref: string): (r: Option<string>) {
    if "refs/heads/" <= ref then
      var name := ref[11..];
      if name == [] then None else Some(name)
    else if "refs/tags/" <= ref then
      var name := ref[10..];
      if name == [] then None else Some("tag:" + name)
    else None
  }

  function ToGitRef(env: string): (r: string) {
    if "tag:" <= env then "refs/tags/" + env[4..] else "refs/heads/" + env
  }

  /** Exactly the full names of branches and tags are accepted. */
  lemma FromGitRefIff(ref: string, env: string)
    ensures FromGitRef(ref) == Some(env) <==>
            || (env != [] && ref == "refs/heads/" + env)
            || (exists name: string :: name != [] && ref == "refs/tags/" + name && env == "tag:" + name)
  {
    if "refs/heads/" <= ref {
      assert ref == "refs/heads/" + ref[11..];
      assert ref[5] == 'h';
      forall name: string
        ensures ref != "refs/tags/" + name
      {
        assert ("refs/tags/" + name)[5] == 't';
      }
      assert ("refs/heads/" + env)[11..] == env;
    } else {
      assert "refs/heads/" <= "refs/heads/" + env;
      if "refs/tags/" <= ref {
        assert ref == "refs/tags/" + ref[10..];
        forall name: string
          ensures ref == "refs/tags/" + name ==> name == ref[10..]
        {
          assert ("refs/tags/" + name)[10..] == name;
        }
      } else {
        forall name: string
          ensures ref != "refs/tags/" + name
        {
          assert "refs/tags/" <= "refs/tags/" + name;
        }
      }
    }
  }

  /** An accepted ref comes back exactly when it is not a branch whose name starts with `tag:`. */
  lemma GitRefComesBack(ref: string)
    requires FromGitRef(ref).Some?
    ensures ToGitRef(FromGitRef(ref).value) == ref <==> !("refs/heads/tag:" <= ref)
  {
    if "refs/heads/" <= ref {
      BranchComesBack(ref[11..]);
      assert ref == "refs/heads/" + ref[11..];
    } else {
      TagComesBack(ref[10..]);
      assert ref == "refs/tags/" + ref[10..];
    }
  }

  lemma BranchComesBack(name: string)
    ensures ToGitRef(name) == "refs/heads/" + name <==> !("tag:" <= name)
    ensures "refs/heads/tag:" <= "refs/heads/" + name <==> "tag:" <= name
  {
    var ref := "refs/heads/" + name;
    assert ref[5] == 'h' && ("refs/tags/" + name)[5] == 't';
    assert "refs/heads/tag:" == "refs/heads/" + "tag:";
    assert ref[11..] == name;
    if "tag:" <= name {
      assert ToGitRef(name)[5] == 't';
    }
  }

  lemma TagComesBack(name: string)
    ensures ToGitRef("tag:" + name) == "refs/tags/" + name
    ensures !("refs/heads/tag:" <= "refs/tags/" + name)
  {
    assert ("tag:" + name)[4..] == name;
    assert ("refs/tags/" + name)[5] == 't' && "refs/heads/tag:"[5] == 'h';
  }

  /** An environment comes back from its ref exactly when it is not the bare tag prefix. */
  lemma EnvironmentComesBack(env: string)
    requires env != []
    ensures FromGitRef(ToGitRef(env)) == Some(env) <==> env != "tag:"
  {
    var ref := ToGitRef(env);
    if "tag:" <= env {
      assert ref[5] == 't' && "refs/heads/"[5] == 'h';
      assert env == "tag:" + env[4..];
    }
  }
}
