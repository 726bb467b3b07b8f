/** The subnet allocator as it works in place: trie nodes that overwrite themselves, and an
    allocator object that keeps the trie and the name map. Each method is proved to do to the
    object what the operation of the same name in `SubnetTrie` or `SubnetState` does to its value. */
module SubnetAllocator {
  import opened Prelude
  import opened Bits
  import T = SubnetTrie
  import S = SubnetState

  /** What a node currently is; a split node owns its two halves. */
  datatype Content = Free | Allocated(name: string) | Split(left: Node, right: Node)

  class Node {
    var content: Content
    ghost var view: T.Trie
    ghost var Repr: set<object>

    ghost predicate Valid()
      reads this, Repr
      ensures Valid() ==> this in Repr
      decreases Repr
    {
      && this in Repr
      && match content
         case Free => view == T.Free
         case Allocated(n) => view == T.Allocated(n)
         case Split(l, r) =>
           && l in Repr && l.Repr <= Repr && this !in l.Repr && l.Valid()
           && r in Repr && r.Repr <= Repr && this !in r.Repr && r.Valid()
           && l.Repr !! r.Repr
           && view == T.Split(l.view, r.view)
    }

    constructor ()
      ensures Valid() && fresh(Repr) && view == T.Free
    {
      content := Free;
      view := T.Free;
      Repr := {this};
    }

    /** Become a split node over two separate halves. */
    method BecomeSplit(left: Node, right: Node)
      requires left.Valid() && right.Valid()
      requires left.Repr !! right.Repr && this !in left.Repr && this !in right.Repr
      modifies this
      ensures Valid() && Repr == {this} + left.Repr + right.Repr
      ensures content == Split(left, right) && view == T.Split(left.view, right.view)
    {
      content := Split(left, right);
      view := T.Split(left.view, right.view);
      Repr := {this} + left.Repr + right.Repr;
    }

    method Allocate(block: T.Subnet, target: nat, name: string) returns (answer: Option<T.Subnet>)
      requires Valid() && T.Fits(view, block.prefix) && target <= 32
      modifies Repr
      ensures Valid() && fresh(Repr - old(Repr))
      ensures (view, answer) == T.AllocateIn(old(view), block, target, name)
      decreases 32 - block.prefix
    {
      hide Pow2, BitOr;
      match content
      case Allocated(_) => answer := None;
      case Free =>
        if block.prefix == target {
          content, view, Repr := Allocated(name), T.Allocated(name), {this};
          answer := Some(block);
        } else if block.prefix < target {
          var left := new Node();
          var right := new Node();
          answer := left.Allocate(T.LeftHalf(block), target, name);
          BecomeSplit(left, right);
        } else {
          answer := None;
        }
      case Split(left, right) =>
        answer := left.Allocate(T.LeftHalf(block), target, name);
        if answer.None? {
          answer := right.Allocate(T.RightHalf(block), target, name);
        }
        BecomeSplit(left, right);
    }

    method Seed(block: T.Subnet, subnet: T.Subnet, name: string) returns (ok: bool)
      requires Valid() && T.Fits(view, block.prefix) && subnet.prefix <= 32
      modifies Repr
      ensures Valid() && fresh(Repr - old(Repr))
      ensures (view, ok) == T.SeedIn(old(view), block, subnet, name)
      decreases 32 - block.prefix
    {
      hide Pow2, BitOr;
      if block.prefix == subnet.prefix {
        if content.Free? {
          content, view, Repr := Allocated(name), T.Allocated(name), {this};
          ok := true;
        } else {
          ok := false;
        }
      } else if block.prefix < subnet.prefix {
        match content
        case Allocated(_) => ok := false;
        case Free =>
          var left := new Node();
          var right := new Node();
          if subnet.addr < T.RightHalf(block).addr {
            ok := left.Seed(T.LeftHalf(block), subnet, name);
          } else {
            ok := right.Seed(T.RightHalf(block), subnet, name);
          }
          BecomeSplit(left, right);
        case Split(left, right) =>
          if subnet.addr < T.RightHalf(block).addr {
            ok := left.Seed(T.LeftHalf(block), subnet, name);
          } else {
            ok := right.Seed(T.RightHalf(block), subnet, name);
          }
          BecomeSplit(left, right);
      } else {
        ok := false;
      }
    }

    method Release(name: string) returns (released: bool)
      requires Valid()
      modifies Repr
      ensures Valid() && fresh(Repr - old(Repr))
      ensures (view, released) == T.ReleaseIn(old(view), name)
      decreases Repr
    {
      match content
      case Free => released := false;
      case Allocated(n) =>
        released := n == name;
        if released {
          content, view := Free, T.Free;
        }
      case Split(left, right) =>
        released := left.Release(name);
        if !released {
          released := right.Release(name);
        }
        if released && left.content.Free? && right.content.Free? {
          content, view, Repr := Free, T.Free, {this};
        } else {
          BecomeSplit(left, right);
        }
    }
  }

  class Allocator {
    const cluster: T.Subnet
    const root: Node
    var grants: map<string, T.Subnet>

    /** The object's value. */
    ghost function View(): S.State
      reads this, root
    {
      S.State(cluster, root.view, grants)
    }

    ghost predicate Valid()
      reads this, root, root.Repr
    {
      root.Valid() && this !in root.Repr && S.Inv(View())
    }

    constructor (cluster: T.Subnet)
      requires T.IsNetwork(cluster)
      ensures Valid() && fresh(root) && fresh(root.Repr)
      ensures View() == S.Fresh(cluster)
    {
      this.cluster := cluster;
      root := new Node();
      grants := map[];
      new;
      S.FreshInv(cluster);
    }

    /** Grant `name` a subnet of the given prefix length. A grant it already has is returned,
        whatever the prefix; otherwise the lowest available aligned block is taken, and the call
        fails exactly when there is none. */
    method Allocate(name: string, prefix: nat) returns (r: Result<T.Subnet, S.Error>)
      requires Valid()
      modifies this, root, root.Repr
      ensures Valid() && fresh(root.Repr - old(root.Repr))
      ensures (View(), r) == S.Allocate(old(View()), name, prefix)
      ensures S.Networks(old(grants))
      ensures cluster.prefix < prefix <= 30 && name !in old(grants) ==>
                match r
                case Err(_) =>
                  && View() == old(View())
                  && forall b :: T.IsSubblock(b, cluster, prefix) ==> !S.Available(old(grants), b)
                case Ok(b) =>
                  && grants == old(grants)[name := b]
                  && T.IsSubblock(b, cluster, prefix) && S.Available(old(grants), b)
                  && forall c :: T.IsSubblock(c, cluster, prefix) && S.Available(old(grants), c) ==> b.addr <= c.addr
      ensures !(cluster.prefix < prefix <= 30 && name !in old(grants)) ==>
                && View() == old(View())
                && r == if prefix <= cluster.prefix then Err(S.PrefixNotBelowCluster)
                        else if prefix > 30 then Err(S.PrefixTooLong)
                        else Ok(old(grants)[name])
    {
      ghost var before := View();
      S.GrantedAreDisjointBlocks(before);
      if prefix <= cluster.prefix {
        return Err(S.PrefixNotBelowCluster);
      }
      if prefix > 30 {
        return Err(S.PrefixTooLong);
      }
      if name in grants {
        return Ok(grants[name]);
      }
      S.AllocateGrantsLowest(before, name, prefix);
      var answer := root.Allocate(cluster, prefix, name);
      match answer
      case Some(subnet) =>
        grants := grants[name := subnet];
        r := Ok(subnet);
      case None =>
        r := Err(S.NoFreeSubnet);
    }

    /** Record a grant known from elsewhere. */
    method Seed(name: string, subnet: T.Subnet) returns (r: Result<(), S.Error>)
      requires Valid() && T.IsNetwork(subnet)
      modifies this, root, root.Repr
      ensures Valid() && fresh(root.Repr - old(root.Repr))
      ensures (View(), r) == S.Seed(old(View()), name, subnet)
      ensures S.Networks(old(grants))
      ensures name !in old(grants) ==>
                (r.Ok? <==> T.Inside(subnet, cluster) && S.Available(old(grants), subnet))
      ensures name in old(grants) ==> r == if old(grants)[name] == subnet then Ok(()) else Err(S.NameTaken)
      ensures name !in old(grants) && r.Err? ==>
                r.error == if T.Inside(subnet, cluster) then S.Conflict else S.OutsideCluster
      ensures grants == if r.Ok? then old(grants)[name := subnet] else old(grants)
    {
      S.SeedGrantsIffAvailable(View(), name, subnet);
      if name in grants {
        if grants[name] == subnet {
          return Ok(());
        }
        return Err(S.NameTaken);
      }
      if !T.Inside(subnet, cluster) {
        return Err(S.OutsideCluster);
      }
      var ok := root.Seed(cluster, subnet, name);
      if ok {
        grants := grants[name := subnet];
        r := Ok(());
      } else {
        r := Err(S.Conflict);
      }
    }

    /** Give a name's subnet back. */
    method Release(name: string)
      requires Valid()
      modifies this, root, root.Repr
      ensures Valid() && fresh(root.Repr - old(root.Repr))
      ensures View() == S.Release(old(View()), name)
      ensures grants == old(grants) - {name}
    {
      S.ReleaseForgets(View(), name);
      if name in grants {
        grants := grants - {name};
        var _ := root.Release(name);
      }
    }
  }
}
