/** The subnet allocator as a state machine over values: the trie and the name map together,
    and what holds of them after every run of operations. */
module SubnetState {
  import opened Prelude
  import opened SubnetTrie

  datatype State = State(cluster: Subnet, root: Trie, grants: map<string, Subnet>)

  datatype Error = PrefixNotBelowCluster | PrefixTooLong | NoFreeSubnet
                 | NameTaken | OutsideCluster | Conflict

  function Fresh(cluster: Subnet): (s: State) {
    State(cluster, Free, map[])
  }

  function Allocate(s: State, name: string, prefix: nat): (r: (State, Result<Subnet, Error>))
    requires Fits(s.root, s.cluster.prefix)
  {
    if prefix <= s.cluster.prefix then (s, Err(PrefixNotBelowCluster))
    else if prefix > 30 then (s, Err(PrefixTooLong))
    else if name in s.grants then (s, Ok(s.grants[name]))
    else
      var (root, answer) := AllocateIn(s.root, s.cluster, prefix, name);
      if answer.Some?
      then (s.(root := root, grants := s.grants[name := answer.value]), Ok(answer.value))
      else (s.(root := root), Err(NoFreeSubnet))
  }

  function Seed(s: State, name: string, subnet: Subnet): (r: (State, Result<(), Error>))
    requires Fits(s.root, s.cluster.prefix) && subnet.prefix <= 32
  {
    if name in s.grants then
      (s, if s.grants[name] == subnet then Ok(()) else Err(NameTaken))
    else if !Inside(subnet, s.cluster) then (s, Err(OutsideCluster))
    else
      var (root, ok) := SeedIn(s.root, s.cluster, subnet, name);
      if ok then (s.(root := root, grants := s.grants[name := subnet]), Ok(()))
      else (s.(root := root), Err(Conflict))
  }

  function Release(s: State, name: string): (r: State) {
    if name in s.grants
    then s.(root := ReleaseIn(s.root, name).0, grants := s.grants - {name})
    else s
  }

  // ----- the invariant -----

  ghost predicate Networks(grants: map<string, Subnet>) {
    forall n :: n in grants ==> grants[n].prefix <= 32 && IsNetwork(grants[n])
  }

  /** The map, read as leases. */
  function Granted(grants: map<string, Subnet>): (g: set<Lease>) {
    set n | n in grants :: Lease(n, grants[n])
  }

  /** Trie and map agree, and the trie is in canonical form. */
  ghost predicate Inv(s: State) {
    && IsNetwork(s.cluster)
    && Fits(s.root, s.cluster.prefix)
    && Canonical(s.root)
    && Leases(s.root, s.cluster) == Granted(s.grants)
  }

  lemma GrantedHas(m: map<string, Subnet>, l: Lease)
    ensures l in Granted(m) <==> l.name in m && m[l.name] == l.subnet
  {
  }

  lemma GrantedInsert(m: map<string, Subnet>, name: string, subnet: Subnet)
    requires name !in m
    ensures Granted(m[name := subnet]) == Granted(m) + {Lease(name, subnet)}
  {
    forall l: Lease
      ensures l in Granted(m[name := subnet]) <==> l in Granted(m) || l == Lease(name, subnet)
    {
      GrantedHas(m[name := subnet], l);
    }
  }

  lemma GrantedRemove(m: map<string, Subnet>, name: string)
    ensures Granted(m - {name}) == Without(Granted(m), name)
  {
    forall l: Lease
      ensures l in Granted(m - {name}) <==> l in Granted(m) && l.name != name
    {
      GrantedHas(m - {name}, l);
    }
  }

  lemma GrantedInjective(m: map<string, Subnet>, n: map<string, Subnet>)
    requires Granted(m) == Granted(n)
    ensures m == n
  {
    forall k: string
      ensures k in m <==> k in n
      ensures k in m ==> m[k] == n[k]
    {
      if k in m {
        GrantedHas(m, Lease(k, m[k]));
      }
      if k in n {
        GrantedHas(n, Lease(k, n[k]));
      }
    }
  }

  lemma FreshInv(cluster: Subnet)
    requires IsNetwork(cluster)
    ensures Inv(Fresh(cluster))
  {
  }

  /** All granted subnets are aligned, inside the cluster and pairwise disjoint. */
  lemma GrantedAreDisjointBlocks(s: State)
    requires Inv(s)
    ensures Networks(s.grants)
    ensures forall n :: n in s.grants ==> Inside(s.grants[n], s.cluster)
    ensures forall m, n :: m in s.grants && n in s.grants && m != n ==>
              !Overlap(s.grants[m], s.grants[n])
  {
    LeasesAreDisjoint(s.root, s.cluster);
    forall n | n in s.grants
      ensures Lease(n, s.grants[n]) in Leases(s.root, s.cluster)
    {
    }
  }

  /** `s` overlaps no granted subnet. */
  ghost predicate Available(grants: map<string, Subnet>, s: Subnet)
    requires s.prefix <= 32
    requires Networks(grants)
  {
    forall n :: n in grants ==> !Overlap(grants[n], s)
  }

  lemma AvailableIsFree(s: State, b: Subnet)
    requires Inv(s) && b.prefix <= 32
    ensures LeasesWithin(Leases(s.root, s.cluster), s.cluster)
    ensures Networks(s.grants)
    ensures Available(s.grants, b) <==> FreeIn(Leases(s.root, s.cluster), b)
  {
    LeasesAreWithin(s.root, s.cluster);
    forall n | n in s.grants
      ensures Lease(n, s.grants[n]) in Leases(s.root, s.cluster)
    {
    }
  }

  /** For a valid prefix and a new name, allocation fails, leaving the state as it was, exactly
      when no aligned block of the size is available, and otherwise grants the lowest one. */
  lemma AllocateGrantsLowest(s: State, name: string, prefix: nat)
    requires Inv(s) && s.cluster.prefix < prefix <= 30 && name !in s.grants
    ensures Inv(Allocate(s, name, prefix).0)
    ensures Networks(s.grants)
    ensures var (s', r) := Allocate(s, name, prefix);
            match r
            case Err(e) =>
              && e == NoFreeSubnet
              && s' == s
              && forall b :: IsSubblock(b, s.cluster, prefix) ==> !Available(s.grants, b)
            case Ok(b) =>
              && s'.grants == s.grants[name := b] && s'.cluster == s.cluster
              && IsSubblock(b, s.cluster, prefix) && Available(s.grants, b)
              && forall c :: IsSubblock(c, s.cluster, prefix) && Available(s.grants, c) ==> b.addr <= c.addr
  {
    AllocateIsLeftmost(s.root, s.cluster, prefix, name);
    GrantedAreDisjointBlocks(s);
    forall b: Subnet | b.prefix <= 32
      ensures Available(s.grants, b) <==> FreeIn(Leases(s.root, s.cluster), b)
    {
      AvailableIsFree(s, b);
    }
    var answer := AllocateIn(s.root, s.cluster, prefix, name).1;
    if answer.Some? {
      GrantedInsert(s.grants, name, answer.value);
    }
  }

  /** Out of range prefixes and names already granted leave the state alone. */
  lemma AllocateElsewhere(s: State, name: string, prefix: nat)
    requires Inv(s) && !(s.cluster.prefix < prefix <= 30 && name !in s.grants)
    ensures Allocate(s, name, prefix).0 == s
    ensures Allocate(s, name, prefix).1.Ok? <==> s.cluster.prefix < prefix <= 30
    ensures Allocate(s, name, prefix).1.Ok? ==> Allocate(s, name, prefix).1.value == s.grants[name]
    ensures Allocate(s, name, prefix).1.Err? ==>
              Allocate(s, name, prefix).1.error ==
              if prefix <= s.cluster.prefix then PrefixNotBelowCluster else PrefixTooLong
  {
  }

  /** Seeding a new name succeeds exactly when the subnet lies in the cluster and is available. */
  lemma SeedGrantsIffAvailable(s: State, name: string, subnet: Subnet)
    requires Inv(s) && IsNetwork(subnet)
    ensures Inv(Seed(s, name, subnet).0)
    ensures Networks(s.grants)
    ensures name !in s.grants ==>
              (Seed(s, name, subnet).1.Ok? <==> Inside(subnet, s.cluster) && Available(s.grants, subnet))
    ensures name in s.grants ==> (Seed(s, name, subnet).1.Ok? <==> s.grants[name] == subnet)
    ensures Seed(s, name, subnet).1.Ok? ==>
              Seed(s, name, subnet).0.grants == s.grants[name := subnet]
    ensures Seed(s, name, subnet).1.Err? ==> Seed(s, name, subnet).0 == s
    ensures Seed(s, name, subnet).1.Err? ==>
              Seed(s, name, subnet).1.error ==
              if name in s.grants then NameTaken else if !Inside(subnet, s.cluster) then OutsideCluster else Conflict
    ensures Seed(s, name, subnet).0.cluster == s.cluster
  {
    GrantedAreDisjointBlocks(s);
    if name in s.grants {
    } else if Inside(subnet, s.cluster) {
      SeedIsExact(s.root, s.cluster, subnet, name);
      GrantedInsert(s.grants, name, subnet);
    }
  }

  lemma ReleaseForgets(s: State, name: string)
    requires Inv(s)
    ensures Inv(Release(s, name))
    ensures Release(s, name).cluster == s.cluster
    ensures Release(s, name).grants == s.grants - {name}
  {
    if name in s.grants {
      ReleaseRemoves(s.root, s.cluster, name);
      GrantedRemove(s.grants, name);
    }
  }

  /** Trie and map determine each other. */
  lemma HistoryIndependent(s: State, t: State)
    requires Inv(s) && Inv(t) && s.cluster == t.cluster
    ensures s.grants == t.grants <==> s.root == t.root
  {
    if s.grants == t.grants {
      CanonicalIsUnique(s.root, t.root, s.cluster);
    }
    if s.root == t.root {
      GrantedInjective(s.grants, t.grants);
    }
  }

  /** Releasing a freshly granted name undoes the grant, in the trie as well as in the map. */
  lemma ReleaseUndoesAllocate(s: State, name: string, prefix: nat)
    requires Inv(s) && s.cluster.prefix < prefix <= 30 && name !in s.grants
    ensures Release(Allocate(s, name, prefix).0, name) == s
  {
    AllocateGrantsLowest(s, name, prefix);
    var s' := Allocate(s, name, prefix).0;
    ReleaseForgets(s', name);
    HistoryIndependent(Release(s', name), s);
  }

  // ----- runs -----

  datatype Op = OpAllocate(name: string, prefix: nat) | OpSeed(name: string, subnet: Subnet) | OpRelease(name: string)

  predicate OpOk(op: Op) {
    op.OpSeed? ==> IsNetwork(op.subnet)
  }

  function Apply(s: State, op: Op): (s': State)
    requires Fits(s.root, s.cluster.prefix) && OpOk(op)
    ensures Fits(s'.root, s'.cluster.prefix)
  {
    match op
    case OpAllocate(name, prefix) => Allocate(s, name, prefix).0
    case OpSeed(name, subnet) => Seed(s, name, subnet).0
    case OpRelease(name) => ReleaseKeepsShape(s.root, s.cluster.prefix, name); Release(s, name)
  }

  /** The state after a run of operations on a new allocator. */
  function Run(cluster: Subnet, run: seq<Op>): (s: State)
    requires IsNetwork(cluster)
    requires forall op :: op in run ==> OpOk(op)
    ensures Fits(s.root, s.cluster.prefix)
    decreases |run|
  {
    if run == [] then Fresh(cluster)
    else Apply(Run(cluster, run[..|run| - 1]), run[|run| - 1])
  }

  /** Every reachable state satisfies the invariant. */
  lemma {:induction false} EveryRunKeepsInv(cluster: Subnet, run: seq<Op>)
    requires IsNetwork(cluster)
    requires forall op :: op in run ==> OpOk(op)
    ensures Inv(Run(cluster, run)) && Run(cluster, run).cluster == cluster
    decreases |run|
  {
    if run != [] {
      var p := Run(cluster, run[..|run| - 1]);
      EveryRunKeepsInv(cluster, run[..|run| - 1]);
      assert OpOk(run[|run| - 1]);
      match run[|run| - 1]
      case OpAllocate(name, prefix) =>
        if p.cluster.prefix < prefix <= 30 && name !in p.grants {
          AllocateGrantsLowest(p, name, prefix);
        } else {
          AllocateElsewhere(p, name, prefix);
        }
      case OpSeed(name, subnet) => SeedGrantsIffAvailable(p, name, subnet);
      case OpRelease(name) => ReleaseForgets(p, name);
    }
  }

  /** Two runs that leave the same grants leave the same trie, whatever they did on the way. */
  lemma RunsWithSameGrantsAgree(cluster: Subnet, run: seq<Op>, other: seq<Op>)
    requires IsNetwork(cluster)
    requires forall op :: op in run ==> OpOk(op)
    requires forall op :: op in other ==> OpOk(op)
    requires Run(cluster, run).grants == Run(cluster, other).grants
    ensures Run(cluster, run) == Run(cluster, other)
  {
    EveryRunKeepsInv(cluster, run);
    EveryRunKeepsInv(cluster, other);
    HistoryIndependent(Run(cluster, run), Run(cluster, other));
  }

  // ----- a larger block is taken although a smaller one fits -----

  /** A half and a quarter of the cluster granted, and the half released again. */
  function GapRun(cluster: Subnet, a: string, b: string): seq<Op> {
    [OpAllocate(a, cluster.prefix + 1), OpAllocate(b, cluster.prefix + 2), OpRelease(a)]
  }

  lemma RunOfThree(cluster: Subnet, x: Op, y: Op, z: Op)
    requires IsNetwork(cluster) && OpOk(x) && OpOk(y) && OpOk(z)
    ensures Run(cluster, [x, y, z]) == Apply(Apply(Apply(Fresh(cluster), x), y), z)
  {
    hide Apply, Fits, IsNetwork;
    assert [x, y, z][..2] == [x, y] && [x, y][..1] == [x] && [x][..0] == [];
    assert Run(cluster, []) == Fresh(cluster);
    assert Run(cluster, [x]) == Apply(Fresh(cluster), x);
  }

  lemma HalfOfFree(block: Subnet, name: string)
    requires block.prefix < 32
    ensures AllocateIn(Free, block, block.prefix + 1, name) == (Split(Allocated(name), Free), Some(LeftHalf(block)))
  {
  }

  /** Then the lower half and the last quarter are free. */
  lemma GapRunState(cluster: Subnet, a: string, b: string)
    requires IsNetwork(cluster) && cluster.prefix <= 28 && a != b
    ensures var s := Run(cluster, GapRun(cluster, a, b));
            && s.root == Split(Free, Split(Allocated(b), Free)) && s.cluster == cluster
            && s.grants.Keys == {b}
  {
    hide Run, IsNetwork, AllocateIn, ReleaseIn;
    var p := cluster.prefix;
    RunOfThree(cluster, OpAllocate(a, p + 1), OpAllocate(b, p + 2), OpRelease(a));
    HalfOfFree(cluster, a);
    QuarterBesideHalf(cluster, a, b);
    ReleaseOfHalf(a, b);
  }

  lemma QuarterBesideHalf(block: Subnet, a: string, b: string)
    requires block.prefix < 31
    ensures Fits(Allocated(a), block.prefix + 1) && Fits(Free, block.prefix + 1)
    ensures AllocateIn(Split(Allocated(a), Free), block, block.prefix + 2, b) ==
            (Split(Allocated(a), Split(Allocated(b), Free)), Some(LeftHalf(RightHalf(block))))
  {
    HalfOfFree(RightHalf(block), b);
  }

  lemma ReleaseOfHalf(a: string, b: string)
    requires a != b
    ensures ReleaseIn(Split(Allocated(a), Split(Allocated(b), Free)), a).0 == Split(Free, Split(Allocated(b), Free))
  {
  }

  /** The next allocation of a quarter is cut out of the free half, not taken from the free quarter. */
  lemma LargerBlockIsTaken(cluster: Subnet, a: string, b: string, c: string)
    requires IsNetwork(cluster) && cluster.prefix <= 28 && a != b && b != c
    ensures var s, q := Run(cluster, GapRun(cluster, a, b)), cluster.prefix + 2;
            && s.cluster == cluster
            && Allocate(s, c, q).1 == Ok(Subnet(cluster.addr, q))
            && !TakesSmallest(s.root, cluster, q, Subnet(cluster.addr, q))
  {
    hide Run;
    GapRunState(cluster, a, b);
    QuarterOfHalf(cluster, b, c);
  }

  lemma QuarterOfHalf(block: Subnet, b: string, c: string)
    requires IsNetwork(block) && block.prefix <= 28
    ensures var root, q := Split(Free, Split(Allocated(b), Free)), block.prefix + 2;
            && Fits(root, block.prefix)
            && AllocateIn(root, block, q, c).1 == Some(Subnet(block.addr, q))
            && !TakesSmallest(root, block, q, Subnet(block.addr, q))
  {
    hide IsNetwork, Size, TakesSmallest;
    var root, q := Split(Free, Split(Allocated(b), Free)), block.prefix + 2;
    Halves(block);
    Halves(RightHalf(block));
    HalfOfFree(LeftHalf(block), c);
    var half, quarter := LeftHalf(block), RightHalf(RightHalf(block));
    assert FreeLeaves(Split(Allocated(b), Free), RightHalf(block)) == {quarter};
    assert FreeLeaves(root, block) == {half, quarter};
    assert IsLowest(half, Fitting(root, block, q)) && quarter in Fitting(root, block, q);
    TakesSmallestIff(root, block, q, c);
  }

  // ----- rebuilding from the map -----

  /** `names` lists every granted name once, in some order. */
  ghost predicate Enumerates(names: seq<string>, m: map<string, Subnet>) {
    && (forall n :: n in names <==> n in m)
    && (forall i, j :: 0 <= i < j < |names| ==> names[i] != names[j])
  }

  /** Seeding the listed grants one after the other; `None` once a seed has been refused. */
  ghost function SeedAll(start: State, names: seq<string>, m: map<string, Subnet>): (r: Option<State>)
    requires IsNetwork(start.cluster) && Fits(start.root, start.cluster.prefix)
    requires Networks(m) && forall n :: n in names ==> n in m
    ensures r.Some? ==> Fits(r.value.root, r.value.cluster.prefix)
  {
    if names == [] then Some(start)
    else
      var before := SeedAll(start, names[..|names| - 1], m);
      var n := names[|names| - 1];
      if before.None? then None
      else
        var (s, r) := Seed(before.value, n, m[n]);
        if r.Ok? then Some(s) else None
  }

  /** The grants of the listed names. */
  function Listed(m: map<string, Subnet>, names: seq<string>): map<string, Subnet> {
    map n | n in m && n in names :: m[n]
  }

  lemma ListedGrows(m: map<string, Subnet>, init: seq<string>, n: string)
    requires n in m
    ensures Listed(m, init + [n]) == Listed(m, init)[n := m[n]]
  {
  }

  /** A granted subnet is available beside the others. */
  lemma ListedLeaveRoom(s: State, init: seq<string>, n: string)
    requires Inv(s) && n in s.grants && n !in init
    ensures Networks(s.grants) && Networks(Listed(s.grants, init)) && n !in Listed(s.grants, init)
    ensures Inside(s.grants[n], s.cluster) && Available(Listed(s.grants, init), s.grants[n])
  {
    hide Inv, Inside, Overlap, IsNetwork;
    GrantedAreDisjointBlocks(s);
  }

  lemma {:induction false} SeedingGrantsPrefix(s: State, names: seq<string>)
    requires Inv(s)
    requires Networks(s.grants) && forall n :: n in names ==> n in s.grants
    requires forall i, j :: 0 <= i < j < |names| ==> names[i] != names[j]
    ensures SeedAll(Fresh(s.cluster), names, s.grants).Some?
    ensures var t := SeedAll(Fresh(s.cluster), names, s.grants).value;
            Inv(t) && t.cluster == s.cluster && t.grants == Listed(s.grants, names)
    decreases |names|
  {
    hide Seed, Inside, Available, Canonical, Leases, Granted;
    if names == [] {
      FreshInv(s.cluster);
    } else {
      var init, n := names[..|names| - 1], names[|names| - 1];
      SeedingGrantsPrefix(s, init);
      assert n !in init && names == init + [n];
      ListedLeaveRoom(s, init, n);
      ListedGrows(s.grants, init, n);
      SeedGrantsIffAvailable(SeedAll(Fresh(s.cluster), init, s.grants).value, n, s.grants[n]);
    }
  }

  /** Seeding a fresh allocator with the grants of a reachable state, in any order, succeeds
      every time and rebuilds that state, trie included. */
  lemma SeedingRebuilds(s: State, names: seq<string>)
    requires Inv(s) && Enumerates(names, s.grants)
    ensures Networks(s.grants)
    ensures SeedAll(Fresh(s.cluster), names, s.grants) == Some(s)
  {
    GrantedAreDisjointBlocks(s);
    SeedingGrantsPrefix(s, names);
    var t := SeedAll(Fresh(s.cluster), names, s.grants).value;
    HistoryIndependent(t, s);
  }
}
