/** The binary trie over IPv4 prefixes, as a value.

    `AllocateIn`, `SeedIn` and `ReleaseIn` say what one in-place operation of the trie does to
    its value. The lemmas relate them to the set of leases the trie stands for, which is an
    independent reading of the trie: which name holds which block. */
module SubnetTrie {
  import opened Prelude
  import opened Bits

  datatype Trie = Free | Allocated(name: string) | Split(left: Trie, right: Trie)

  /** An IPv4 network: its network address and its prefix length. */
  datatype Subnet = Subnet(addr: nat, prefix: nat)

  datatype Lease = Lease(name: string, subnet: Subnet)

  function Size(prefix: nat): (n: nat)
    requires prefix <= 32
    ensures n > 0
  {
    Pow2(32 - prefix)
  }

  /** A network whose host bits are zero. */
  predicate IsNetwork(s: Subnet) {
    s.prefix <= 32 && Aligned(s.addr, 32 - s.prefix)
  }

  predicate Inside(s: Subnet, block: Subnet)
    requires s.prefix <= 32 && block.prefix <= 32
  {
    block.addr <= s.addr && s.addr + Size(s.prefix) <= block.addr + Size(block.prefix)
  }

  predicate Overlap(s: Subnet, t: Subnet)
    requires s.prefix <= 32 && t.prefix <= 32
  {
    s.addr < t.addr + Size(t.prefix) && t.addr < s.addr + Size(s.prefix)
  }

  /** The aligned `/prefix` blocks of `block`. */
  predicate IsSubblock(s: Subnet, block: Subnet, prefix: nat)
    requires block.prefix <= 32
  {
    IsNetwork(s) && s.prefix == prefix && Inside(s, block)
  }

  function LeftHalf(block: Subnet): Subnet {
    Subnet(block.addr, block.prefix + 1)
  }

  /** The upper half, its address computed by setting the next bit. */
  function RightHalf(block: Subnet): Subnet
    requires block.prefix < 32
  {
    Subnet(BitOr(block.addr, Pow2(31 - block.prefix)), block.prefix + 1)
  }

  // ----- the operations -----

  /** The trie is no deeper than the address width allows. */
  predicate Fits(t: Trie, prefix: nat) {
    prefix <= 32 && (t.Split? ==> Fits(t.left, prefix + 1) && Fits(t.right, prefix + 1))
  }

  function AllocateIn(t: Trie, block: Subnet, target: nat, name: string): (r: (Trie, Option<Subnet>))
    requires Fits(t, block.prefix) && target <= 32
    ensures Fits(r.0, block.prefix)
    decreases 32 - block.prefix
  {
    match t
    case Allocated(_) => (t, None)
    case Free =>
      if block.prefix == target then (Allocated(name), Some(block))
      else if block.prefix < target then
        var (left, r) := AllocateIn(Free, LeftHalf(block), target, name);
        (Split(left, Free), r)
      else (t, None)
    case Split(left, right) =>
      var (left', r) := AllocateIn(left, LeftHalf(block), target, name);
      if r.Some? then (Split(left', right), r)
      else
        var (right', r') := AllocateIn(right, RightHalf(block), target, name);
        (Split(left', right'), r')
  }

  function SeedIn(t: Trie, block: Subnet, subnet: Subnet, name: string): (r: (Trie, bool))
    requires Fits(t, block.prefix) && subnet.prefix <= 32
    ensures Fits(r.0, block.prefix)
    decreases 32 - block.prefix
  {
    if block.prefix == subnet.prefix then
      if t.Free? then (Allocated(name), true) else (t, false)
    else if block.prefix < subnet.prefix then
      if t.Allocated? then (t, false)
      else
        var (left, right) := if t.Free? then (Free, Free) else (t.left, t.right);
        if subnet.addr < RightHalf(block).addr then
          var (left', ok) := SeedIn(left, LeftHalf(block), subnet, name);
          (Split(left', right), ok)
        else
          var (right', ok) := SeedIn(right, RightHalf(block), subnet, name);
          (Split(left, right'), ok)
    else (t, false)
  }

  function ReleaseIn(t: Trie, name: string): (r: (Trie, bool)) {
    match t
    case Free => (t, false)
    case Allocated(n) => if n == name then (Free, true) else (t, false)
    case Split(left, right) =>
      var (left', inLeft) := ReleaseIn(left, name);
      var (right', released) := if inLeft then (right, true) else ReleaseIn(right, name);
      if released && left'.Free? && right'.Free? then (Free, true)
      else (Split(left', right'), released)
  }

  // ----- what a trie stands for -----

  function Leases(t: Trie, block: Subnet): (s: set<Lease>)
    requires Fits(t, block.prefix)
  {
    match t
    case Free => {}
    case Allocated(n) => {Lease(n, block)}
    case Split(left, right) => Leases(left, LeftHalf(block)) + Leases(right, RightHalf(block))
  }

  /** No block is kept split once both of its halves are free. */
  predicate Canonical(t: Trie) {
    t.Split? ==> Canonical(t.left) && Canonical(t.right) && !(t.left.Free? && t.right.Free?)
  }

  ghost predicate FreeIn(leases: set<Lease>, s: Subnet)
    requires s.prefix <= 32
    requires forall l :: l in leases ==> l.subnet.prefix <= 32
  {
    forall l :: l in leases ==> !Overlap(l.subnet, s)
  }

  ghost predicate LeasesWithin(leases: set<Lease>, block: Subnet)
    requires block.prefix <= 32
  {
    forall l :: l in leases ==> IsNetwork(l.subnet) && Inside(l.subnet, block)
  }

  ghost predicate Disjoint(leases: set<Lease>)
    requires forall l :: l in leases ==> l.subnet.prefix <= 32
  {
    forall l, m :: l in leases && m in leases && l != m ==> !Overlap(l.subnet, m.subnet)
  }

  ghost predicate OneLeasePerName(leases: set<Lease>) {
    forall l, m :: l in leases && m in leases && l.name == m.name ==> l == m
  }

  // ----- geometry of halves -----

  lemma Halves(block: Subnet)
    requires IsNetwork(block) && block.prefix < 32
    ensures IsNetwork(LeftHalf(block)) && IsNetwork(RightHalf(block))
    ensures RightHalf(block).addr == block.addr + Size(block.prefix + 1)
    ensures Size(block.prefix) == 2 * Size(block.prefix + 1)
  {
    BitOrIsSum(block.addr, 31 - block.prefix);
    AlignedUpperHalf(block.addr, 31 - block.prefix);
    AlignedWeaken(block.addr, 31 - block.prefix, 32 - block.prefix);
  }

  /** An aligned block lies on one side of the middle. */
  lemma OnOneSide(s: Subnet, block: Subnet)
    requires IsNetwork(block) && block.prefix < 32
    requires IsNetwork(s) && s.prefix > block.prefix && Inside(s, block)
    ensures if s.addr < RightHalf(block).addr then Inside(s, LeftHalf(block)) else Inside(s, RightHalf(block))
  {
    hide Pow2, BitOr, Aligned;
    Halves(block);
    if s.addr < RightHalf(block).addr {
      AlignedWeaken(RightHalf(block).addr, 32 - s.prefix, 31 - block.prefix);
      AlignedGap(s.addr, RightHalf(block).addr, 32 - s.prefix);
    }
  }

  lemma InsideIsSmaller(s: Subnet, block: Subnet)
    requires s.prefix <= 32 && block.prefix <= 32 && Inside(s, block)
    ensures s.prefix >= block.prefix
    ensures s.prefix == block.prefix ==> s == block
  {
    if s.prefix < block.prefix {
      Pow2Monotone(32 - block.prefix, 32 - s.prefix);
    }
  }

  // ----- invariants of every trie -----

  lemma {:induction false} LeasesAreWithin(t: Trie, block: Subnet)
    requires IsNetwork(block) && Fits(t, block.prefix)
    ensures LeasesWithin(Leases(t, block), block)
    decreases t
  {
    hide Pow2, BitOr, Aligned;
    if t.Split? {
      Halves(block);
      LeasesAreWithin(t.left, LeftHalf(block));
      LeasesAreWithin(t.right, RightHalf(block));
    }
  }

  /** Leases of a trie never overlap, whatever the trie. */
  lemma {:induction false} LeasesAreDisjoint(t: Trie, block: Subnet)
    requires IsNetwork(block) && Fits(t, block.prefix)
    ensures LeasesWithin(Leases(t, block), block) && Disjoint(Leases(t, block))
    decreases t
  {
    hide Pow2, BitOr, Aligned;
    if t.Split? {
      Halves(block);
      LeasesAreDisjoint(t.left, LeftHalf(block));
      LeasesAreDisjoint(t.right, RightHalf(block));
    }
  }

  /** A canonical trie that is not free holds a lease. */
  lemma {:induction false} SomeLease(t: Trie, block: Subnet) returns (l: Lease)
    requires Fits(t, block.prefix) && Canonical(t) && !t.Free?
    ensures l in Leases(t, block)
    decreases t
  {
    match t
    case Allocated(n) => l := Lease(n, block);
    case Split(left, right) =>
      if left.Free? {
        l := SomeLease(right, RightHalf(block));
      } else {
        l := SomeLease(left, LeftHalf(block));
      }
  }

  /** The leases of one half are the leases on that side of the middle. */
  lemma LeasesBySide(t: Trie, block: Subnet)
    requires IsNetwork(block) && Fits(t, block.prefix) && t.Split?
    ensures Leases(t.left, LeftHalf(block)) ==
            set l | l in Leases(t, block) && l.subnet.addr < RightHalf(block).addr
    ensures Leases(t.right, RightHalf(block)) ==
            set l | l in Leases(t, block) && l.subnet.addr >= RightHalf(block).addr
  {
    hide Pow2, BitOr, Aligned, Inside;
    Halves(block);
    LeasesAreWithin(t.left, LeftHalf(block));
    LeasesAreWithin(t.right, RightHalf(block));
    var left, right := Leases(t.left, LeftHalf(block)), Leases(t.right, RightHalf(block));
    forall l: Lease | l in left + right
      ensures l.subnet.addr < RightHalf(block).addr <==> l in left
      ensures l.subnet.addr >= RightHalf(block).addr <==> l in right
    {
      SideOf(l.subnet, block);
    }
    assert Leases(t, block) == left + right;
  }

  lemma SideOf(s: Subnet, block: Subnet)
    requires IsNetwork(block) && block.prefix < 32 && s.prefix <= 32
    ensures Inside(s, LeftHalf(block)) ==> s.addr < RightHalf(block).addr
    ensures Inside(s, RightHalf(block)) ==> s.addr >= RightHalf(block).addr
  {
    hide Pow2, BitOr, Aligned;
    Halves(block);
  }

  /** A canonical trie is determined by its leases: nothing else of its history shows. */
  lemma {:induction false} CanonicalIsUnique(t: Trie, u: Trie, block: Subnet)
    requires IsNetwork(block) && Fits(t, block.prefix) && Fits(u, block.prefix)
    requires Canonical(t) && Canonical(u)
    requires Leases(t, block) == Leases(u, block)
    ensures t == u
    decreases t
  {
    hide Pow2, BitOr, Aligned;
    if t.Free? {
      if !u.Free? {
        var l := SomeLease(u, block);
      }
    } else if t.Allocated? {
      if u.Split? {
        Halves(block);
        LeasesAreWithin(u.left, LeftHalf(block));
        LeasesAreWithin(u.right, RightHalf(block));
      }
    } else {
      var l := SomeLease(t, block);
      Halves(block);
      LeasesAreWithin(t.left, LeftHalf(block));
      LeasesAreWithin(t.right, RightHalf(block));
      if u.Split? {
        LeasesBySide(u, block);
        CanonicalIsUnique(t.left, u.left, LeftHalf(block));
        CanonicalIsUnique(t.right, u.right, RightHalf(block));
      }
    }
  }

  /** Whether a block on one side is free is decided by that side alone. */
  lemma FreeBySide(t: Trie, block: Subnet, s: Subnet)
    requires IsNetwork(block) && Fits(t, block.prefix) && t.Split?
    requires IsNetwork(s) && s.prefix > block.prefix && Inside(s, block)
    ensures LeasesWithin(Leases(t, block), block)
    ensures LeasesWithin(Leases(t.left, LeftHalf(block)), LeftHalf(block))
    ensures LeasesWithin(Leases(t.right, RightHalf(block)), RightHalf(block))
    ensures FreeIn(Leases(t, block), s) <==>
            if s.addr < RightHalf(block).addr
            then FreeIn(Leases(t.left, LeftHalf(block)), s)
            else FreeIn(Leases(t.right, RightHalf(block)), s)
  {
    hide Pow2, BitOr, Aligned;
    Halves(block);
    OnOneSide(s, block);
    LeasesAreWithin(t.left, LeftHalf(block));
    LeasesAreWithin(t.right, RightHalf(block));
  }

  /** A block that holds a lease is not free. */
  lemma OccupiedBlock(t: Trie, block: Subnet)
    requires IsNetwork(block) && Fits(t, block.prefix) && Canonical(t) && !t.Free?
    ensures LeasesWithin(Leases(t, block), block)
    ensures !FreeIn(Leases(t, block), block)
  {
    hide Pow2, BitOr, Aligned;
    LeasesAreWithin(t, block);
    var l := SomeLease(t, block);
  }

  // ----- allocate -----

  lemma {:induction false} BlockTooSmall(t: Trie, block: Subnet, target: nat, name: string)
    requires Fits(t, block.prefix) && target < block.prefix
    ensures AllocateIn(t, block, target, name) == (t, None)
    decreases t
  {
    if t.Split? {
      BlockTooSmall(t.left, LeftHalf(block), target, name);
      BlockTooSmall(t.right, RightHalf(block), target, name);
    }
  }

  /** The declarative reading of allocation: which answer is right for a set of leases. */
  ghost predicate LeftmostFree(leases: set<Lease>, block: Subnet, target: nat, answer: Option<Subnet>)
    requires block.prefix <= 32 && target <= 32
    requires forall l :: l in leases ==> l.subnet.prefix <= 32
  {
    match answer
    case None => forall s :: IsSubblock(s, block, target) ==> !FreeIn(leases, s)
    case Some(r) =>
      && IsSubblock(r, block, target)
      && FreeIn(leases, r)
      && forall s :: IsSubblock(s, block, target) && FreeIn(leases, s) ==> r.addr <= s.addr
  }

  ghost predicate AllocationAdds(t: Trie, t': Trie, block: Subnet, name: string, answer: Option<Subnet>)
    requires Fits(t, block.prefix)
  {
    && Fits(t', block.prefix)
    && Canonical(t')
    && (answer.None? ==> t' == t)
    && (answer.Some? ==> !t'.Free? && Leases(t', block) == Leases(t, block) + {Lease(name, answer.value)})
  }

  lemma {:induction false} AllocateFromFree(block: Subnet, target: nat, name: string)
    requires IsNetwork(block) && block.prefix <= target <= 32
    ensures AllocateIn(Free, block, target, name).1 == Some(Subnet(block.addr, target))
    ensures AllocationAdds(Free, AllocateIn(Free, block, target, name).0, block, name, Some(Subnet(block.addr, target)))
    ensures IsSubblock(Subnet(block.addr, target), block, target)
    decreases 32 - block.prefix
  {
    if block.prefix < target {
      Halves(block);
      AllocateFromFree(LeftHalf(block), target, name);
    }
  }

  /** Allocation fails only when every aligned block of the size overlaps a lease, and otherwise
      takes the lowest free one; it adds that lease, or changes nothing, and stays canonical. */
  lemma {:induction false} AllocateIsLeftmost(t: Trie, block: Subnet, target: nat, name: string)
    requires IsNetwork(block) && Fits(t, block.prefix) && Canonical(t)
    requires block.prefix <= target <= 32
    ensures LeasesWithin(Leases(t, block), block)
    ensures LeftmostFree(Leases(t, block), block, target, AllocateIn(t, block, target, name).1)
    ensures AllocationAdds(t, AllocateIn(t, block, target, name).0, block, name, AllocateIn(t, block, target, name).1)
    decreases t, 1
  {
    hide Pow2, BitOr, Aligned;
    match t
    case Free => AllocateFromFree(block, target, name);
    case Allocated(_) =>
      assert Lease(t.name, block) in Leases(t, block);
    case Split(left, right) =>
      if target == block.prefix {
        BlockTooSmall(left, LeftHalf(block), target, name);
        BlockTooSmall(right, RightHalf(block), target, name);
        OccupiedBlock(t, block);
        forall s | IsSubblock(s, block, target)
          ensures s == block
        {
          InsideIsSmaller(s, block);
        }
      } else {
        AllocateInSplit(t, block, target, name);
      }
  }

  lemma AllocateOnOneSide(t: Trie, block: Subnet, target: nat, name: string)
    requires Fits(t, block.prefix) && t.Split? && target <= 32
    ensures var (left, r) := AllocateIn(t.left, LeftHalf(block), target, name);
            var (right, r') := AllocateIn(t.right, RightHalf(block), target, name);
            AllocateIn(t, block, target, name) ==
            if r.Some? then (Split(left, t.right), r) else (Split(left, right), r')
  {
  }

  lemma {:induction false} AllocateInSplit(t: Trie, block: Subnet, target: nat, name: string)
    requires IsNetwork(block) && Fits(t, block.prefix) && Canonical(t) && t.Split?
    requires block.prefix < target <= 32
    ensures LeasesWithin(Leases(t, block), block)
    ensures LeftmostFree(Leases(t, block), block, target, AllocateIn(t, block, target, name).1)
    ensures AllocationAdds(t, AllocateIn(t, block, target, name).0, block, name, AllocateIn(t, block, target, name).1)
    decreases t, 0
  {
    hide Pow2, BitOr, Aligned, AllocateIn;
    LeasesAreWithin(t, block);
    Halves(block);
    AllocateOnOneSide(t, block, target, name);
    AllocateIsLeftmost(t.left, LeftHalf(block), target, name);
    AllocateIsLeftmost(t.right, RightHalf(block), target, name);
    var (left', r) := AllocateIn(t.left, LeftHalf(block), target, name);
    var (right', r') := AllocateIn(t.right, RightHalf(block), target, name);
    var answer := if r.Some? then r else r';
    forall s | IsSubblock(s, block, target)
      ensures FreeIn(Leases(t, block), s) ==> answer.Some? && answer.value.addr <= s.addr
    {
      OnOneSide(s, block);
      FreeBySide(t, block, s);
      if s.addr < RightHalf(block).addr {
        assert IsSubblock(s, LeftHalf(block), target);
      } else {
        assert IsSubblock(s, RightHalf(block), target);
      }
    }
    if answer.Some? {
      FreeBySide(t, block, answer.value);
    }
  }

  // ----- which free block an allocation takes -----

  /** The free leaves of a trie. */
  function FreeLeaves(t: Trie, block: Subnet): (s: set<Subnet>)
    requires Fits(t, block.prefix)
  {
    match t
    case Free => {block}
    case Allocated(_) => {}
    case Split(left, right) => FreeLeaves(left, LeftHalf(block)) + FreeLeaves(right, RightHalf(block))
  }

  /** The free leaves that hold a `/target` block. */
  function Fitting(t: Trie, block: Subnet, target: nat): (s: set<Subnet>)
    requires Fits(t, block.prefix)
  {
    set f | f in FreeLeaves(t, block) && f.prefix <= target
  }

  ghost predicate IsLowest(f: Subnet, fs: set<Subnet>) {
    f in fs && forall g :: g in fs ==> f.addr <= g.addr
  }

  ghost predicate IsSmallest(f: Subnet, fs: set<Subnet>) {
    f in fs && forall g :: g in fs ==> g.prefix <= f.prefix
  }

  ghost predicate LeavesWithin(fs: set<Subnet>, block: Subnet)
    requires block.prefix <= 32
  {
    && (forall f :: f in fs ==> IsNetwork(f) && Inside(f, block))
    && (forall f, g :: f in fs && g in fs && f != g ==> !Overlap(f, g))
  }

  lemma {:induction false} FreeLeavesAreDisjoint(t: Trie, block: Subnet)
    requires IsNetwork(block) && Fits(t, block.prefix)
    ensures LeavesWithin(FreeLeaves(t, block), block)
    decreases t
  {
    hide Pow2, BitOr, Aligned;
    if t.Split? {
      Halves(block);
      FreeLeavesAreDisjoint(t.left, LeftHalf(block));
      FreeLeavesAreDisjoint(t.right, RightHalf(block));
    }
  }

  /** The free leaves of a canonical trie are the maximal free blocks: a block overlaps no lease
      exactly when it lies in one of them. */
  lemma {:induction false} FreeLeavesAreMaximal(t: Trie, block: Subnet, s: Subnet)
    requires IsNetwork(block) && Fits(t, block.prefix) && Canonical(t)
    requires IsNetwork(s) && Inside(s, block)
    ensures LeasesWithin(Leases(t, block), block) && LeavesWithin(FreeLeaves(t, block), block)
    ensures FreeIn(Leases(t, block), s) <==> exists f :: f in FreeLeaves(t, block) && Inside(s, f)
    decreases t
  {
    hide Pow2, BitOr, Aligned;
    LeasesAreWithin(t, block);
    FreeLeavesAreDisjoint(t, block);
    InsideIsSmaller(s, block);
    match t
    case Free => assert block in FreeLeaves(t, block);
    case Allocated(_) => assert Lease(t.name, block) in Leases(t, block);
    case Split(left, right) =>
      Halves(block);
      FreeLeavesAreDisjoint(left, LeftHalf(block));
      FreeLeavesAreDisjoint(right, RightHalf(block));
      if s.prefix == block.prefix {
        OccupiedBlock(t, block);
      } else {
        OnOneSide(s, block);
        FreeBySide(t, block, s);
        if s.addr < RightHalf(block).addr {
          FreeLeavesAreMaximal(left, LeftHalf(block), s);
        } else {
          FreeLeavesAreMaximal(right, RightHalf(block), s);
        }
      }
  }

  /** Allocation takes the low end of the lowest free leaf that fits. */
  lemma {:induction false} AllocateTakesLowestLeaf(t: Trie, block: Subnet, target: nat, name: string)
    requires IsNetwork(block) && Fits(t, block.prefix) && target <= 32
    ensures var answer, fs := AllocateIn(t, block, target, name).1, Fitting(t, block, target);
            && (answer.None? <==> fs == {})
            && (answer.Some? ==> exists f :: IsLowest(f, fs) && answer.value == Subnet(f.addr, target))
    decreases t
  {
    hide Pow2, BitOr, Aligned;
    match t
    case Free =>
      if block.prefix <= target {
        AllocateFromFree(block, target, name);
        assert IsLowest(block, Fitting(t, block, target));
      }
    case Allocated(_) =>
    case Split(left, right) =>
      Halves(block);
      AllocateTakesLowestLeaf(left, LeftHalf(block), target, name);
      AllocateTakesLowestLeaf(right, RightHalf(block), target, name);
      LowestOfHalves(t, block, target);
  }

  lemma LowestOfHalves(t: Trie, block: Subnet, target: nat)
    requires IsNetwork(block) && Fits(t, block.prefix) && t.Split?
    ensures var l, r := Fitting(t.left, LeftHalf(block), target), Fitting(t.right, RightHalf(block), target);
            && Fitting(t, block, target) == l + r
            && (forall f :: IsLowest(f, l) ==> IsLowest(f, Fitting(t, block, target)))
            && (l == {} ==> Fitting(t, block, target) == r)
  {
    hide Pow2, BitOr, Aligned;
    Halves(block);
    FreeLeavesAreDisjoint(t.left, LeftHalf(block));
    FreeLeavesAreDisjoint(t.right, RightHalf(block));
  }

  lemma LowEnd(block: Subnet, target: nat)
    requires block.prefix <= target <= 32
    ensures Inside(Subnet(block.addr, target), block)
  {
    if block.prefix < target {
      Pow2Monotone(32 - target, 32 - block.prefix);
    }
  }

  /** The block comes out of a smallest free leaf that fits. */
  ghost predicate TakesSmallest(t: Trie, block: Subnet, target: nat, answer: Subnet)
    requires Fits(t, block.prefix) && IsNetwork(block) && answer.prefix <= 32
  {
    exists f :: IsSmallest(f, Fitting(t, block, target)) && f.prefix <= 32 && Inside(answer, f)
  }

  /** It does so exactly when no free leaf that fits is smaller than the lowest one. */
  lemma TakesSmallestIff(t: Trie, block: Subnet, target: nat, name: string)
    requires IsNetwork(block) && Fits(t, block.prefix) && target <= 32
    requires AllocateIn(t, block, target, name).1.Some?
    ensures var answer, fs := AllocateIn(t, block, target, name).1.value, Fitting(t, block, target);
            && answer.prefix <= 32
            && (TakesSmallest(t, block, target, answer) <==>
                forall f, g :: IsLowest(f, fs) && g in fs ==> g.prefix <= f.prefix)
  {
    hide BitOr, Aligned, AllocateIn, FreeLeaves, Pow2;
    var answer, fs := AllocateIn(t, block, target, name).1.value, Fitting(t, block, target);
    AllocateTakesLowestLeaf(t, block, target, name);
    FreeLeavesAreDisjoint(t, block);
    var low :| IsLowest(low, fs) && answer == Subnet(low.addr, target);
    LowEnd(low, target);
    forall f | f in fs && (Inside(answer, f) || IsLowest(f, fs))
      ensures f == low
    {
      assert Overlap(f, low);
    }
  }

  // ----- seed -----

  lemma {:induction false} SeedIntoFree(block: Subnet, subnet: Subnet, name: string)
    requires IsNetwork(block) && IsNetwork(subnet) && Inside(subnet, block)
    ensures SeedIn(Free, block, subnet, name).1
    ensures AllocationAdds(Free, SeedIn(Free, block, subnet, name).0, block, name, Some(subnet))
    decreases 32 - block.prefix
  {
    InsideIsSmaller(subnet, block);
    if block.prefix < subnet.prefix {
      Halves(block);
      OnOneSide(subnet, block);
      if subnet.addr < RightHalf(block).addr {
        SeedIntoFree(LeftHalf(block), subnet, name);
      } else {
        SeedIntoFree(RightHalf(block), subnet, name);
      }
    }
  }

  /** A subnet that is larger than the block is refused. */
  lemma SeedTooLarge(t: Trie, block: Subnet, subnet: Subnet, name: string)
    requires Fits(t, block.prefix) && subnet.prefix < block.prefix
    ensures SeedIn(t, block, subnet, name) == (t, false)
  {
  }

  /** Seeding succeeds exactly when the subnet overlaps no lease; it then adds that lease, and
      otherwise changes nothing. */
  lemma {:induction false} SeedIsExact(t: Trie, block: Subnet, subnet: Subnet, name: string)
    requires IsNetwork(block) && Fits(t, block.prefix) && Canonical(t)
    requires IsNetwork(subnet) && Inside(subnet, block)
    ensures LeasesWithin(Leases(t, block), block)
    ensures SeedIn(t, block, subnet, name).1 <==> FreeIn(Leases(t, block), subnet)
    ensures AllocationAdds(t, SeedIn(t, block, subnet, name).0, block, name,
                           if SeedIn(t, block, subnet, name).1 then Some(subnet) else None)
    decreases t
  {
    hide Pow2, BitOr, Aligned;
    LeasesAreWithin(t, block);
    InsideIsSmaller(subnet, block);
    match t
    case Free => SeedIntoFree(block, subnet, name);
    case Allocated(_) => assert Lease(t.name, block) in Leases(t, block);
    case Split(left, right) =>
      if subnet.prefix == block.prefix {
        OccupiedBlock(t, block);
      } else {
        Halves(block);
        OnOneSide(subnet, block);
        FreeBySide(t, block, subnet);
        if subnet.addr < RightHalf(block).addr {
          SeedIsExact(left, LeftHalf(block), subnet, name);
        } else {
          SeedIsExact(right, RightHalf(block), subnet, name);
        }
      }
  }

  // ----- release -----

  ghost function Without(leases: set<Lease>, name: string): set<Lease> {
    set l | l in leases && l.name != name
  }

  lemma {:induction false} ReleaseKeepsShape(t: Trie, prefix: nat, name: string)
    requires Fits(t, prefix)
    ensures Fits(ReleaseIn(t, name).0, prefix)
    ensures Canonical(t) ==> Canonical(ReleaseIn(t, name).0)
    ensures !ReleaseIn(t, name).1 ==> ReleaseIn(t, name).0 == t
    decreases t
  {
    if t.Split? {
      ReleaseKeepsShape(t.left, prefix + 1, name);
      ReleaseKeepsShape(t.right, prefix + 1, name);
    }
  }

  /** Releasing a name that holds at most one block removes exactly that lease. */
  lemma {:induction false} ReleaseRemoves(t: Trie, block: Subnet, name: string)
    requires IsNetwork(block) && Fits(t, block.prefix) && Canonical(t)
    requires OneLeasePerName(Leases(t, block))
    ensures Fits(ReleaseIn(t, name).0, block.prefix) && Canonical(ReleaseIn(t, name).0)
    ensures Leases(ReleaseIn(t, name).0, block) == Without(Leases(t, block), name)
    ensures ReleaseIn(t, name).1 <==> exists l :: l in Leases(t, block) && l.name == name
    decreases t
  {
    hide Pow2, BitOr, Aligned;
    ReleaseKeepsShape(t, block.prefix, name);
    match t
    case Free =>
    case Allocated(n) => assert Lease(n, block) in Leases(t, block);
    case Split(left, right) =>
      Halves(block);
      ReleaseRemoves(left, LeftHalf(block), name);
      ReleaseRemoves(right, RightHalf(block), name);
      LeasesAreWithin(left, LeftHalf(block));
      LeasesAreWithin(right, RightHalf(block));
      if ReleaseIn(left, name).1 {
        assert forall l :: l in Leases(right, RightHalf(block)) ==> l.name != name;
        assert Without(Leases(right, RightHalf(block)), name) == Leases(right, RightHalf(block));
      }
  }
}
