/**
  `AddressTree` as src/lib.rs keeps it: a node object owning its prefix and
  an optional vector of child nodes, restructured in place by `push` and
  `stepdown`. Each node carries the value it stands for (`Model`), and every
  method is proved against the value functions of module `Trees`.
 */
module AddressTrees {
  import opened Wrappers
  import opened Prefixes
  import Trees

  class AddressTree {
    var prefix: Prefix
    var children: Option<seq<AddressTree>>

    /** The tree this node and the nodes below it stand for. */
    ghost var Model: Trees.Tree
    /** This node and every node below it. */
    ghost var Repr: set<object>

    /**
      The nodes below this one are owned by it: each child sits in its own
      part of `Repr`, apart from its siblings, and stands for the matching
      child of `Model`.
     */
    ghost predicate Valid()
      reads this, Repr
      ensures Valid() ==> this in Repr
      decreases Repr
    {
      this in Repr &&
      Model.prefix == prefix &&
      match children
      case None => Model.children == Trees.Absent
      case Some(cs) =>
        Model.children.Present? && |cs| == |Model.children.nodes| &&
        (forall i :: 0 <= i < |cs| ==>
          cs[i] in Repr && cs[i].Repr <= Repr && this !in cs[i].Repr &&
          cs[i].Valid() && cs[i].Model == Model.children.nodes[i]) &&
        (forall i, j :: 0 <= i < j < |cs| ==> cs[i].Repr !! cs[j].Repr)
    }

    /** `AddressTree::new`: a root node for 0.0.0.0/0 without children. */
    constructor ()
      ensures Valid() && Model == Trees.New() && fresh(Repr)
    {
      prefix := Root();
      children := None;
      Model := Trees.New();
      Repr := {this};
    }

    /** `AddressTree::of`: a node for the /32 of `a` without children. */
    constructor Of(a: Addr)
      ensures Valid() && Model == Trees.Of(a) && fresh(Repr)
    {
      prefix := FromAddr(a);
      children := None;
      Model := Trees.Of(a);
      Repr := {this};
    }

    /**
      The struct literal `stepdown` builds for the node's old self: a new node
      that takes over `other`'s prefix and children.
     */
    constructor TakeOver(other: AddressTree)
      requires other.Valid()
      ensures Valid() && Model == other.Model
      ensures Repr == other.Repr - {other} + {this}
    {
      prefix := other.prefix;
      children := other.children;
      Model := other.Model;
      Repr := other.Repr - {other} + {this};
    }

    /**
      `AddressTree::stepdown`: the node takes `newPrefix`, and its children
      become a new node holding its old prefix and children, followed by
      `neighbour`.
     */
    method Stepdown(newPrefix: Prefix, neighbour: AddressTree)
      requires Valid() && neighbour.Valid() && Repr !! neighbour.Repr
      modifies this
      ensures Valid()
      ensures Model == Trees.Stepdown(old(Model), newPrefix, neighbour.Model)
      ensures old(Repr) + neighbour.Repr <= Repr
      ensures fresh(Repr - old(Repr) - neighbour.Repr)
    {
      var me := new AddressTree.TakeOver(this);
      prefix := newPrefix;
      children := Some([me, neighbour]);
      Model := Trees.Stepdown(Model, newPrefix, neighbour.Model);
      Repr := Repr + {me} + neighbour.Repr;
    }
  
    /**
      `AddressTree::push`: places `a` in the tree in place, as `Trees.Push`
      does on values. An address outside the node's prefix is refused with
      `Err(a)` and nothing changes.
     */
    method Push(a: Addr) returns (r: Result<(), Addr>)
      requires Valid() && Trees.WellFormed(Model)
      modifies Repr
      ensures Valid() && Trees.WellFormed(Model) && old(Repr) <= Repr && fresh(Repr - old(Repr))
      ensures r.Ok? <==> Trees.Push(old(Model), a).Ok?
      ensures r.Ok? ==> Model == Trees.Push(old(Model), a).value
      ensures r.Err? ==> r.error == a && Repr == old(Repr) && unchanged(Repr)
      decreases Repr, 4
    {
      if !Contains(prefix, a) {
        return Err(a);
      }
      Trees.PushWellFormed(Model, a);
      if children.None? {
        var leaf := new AddressTree.Of(a);
        children := Some([leaf]);
        Model := Trees.Tree(prefix, Trees.Present([Trees.Of(a)]));
        Repr := Repr + leaf.Repr;
      } else {
        PushIntoChildren(a);
      }
      return Ok(());
    }

    /**
      The loop of `push` over the children: each child in turn is offered
      `a`, then merged with it through `common_of` and `stepdown`; the first
      child that does either ends the loop, and when none does `a` is
      appended as a new child.
     */
    method PushIntoChildren(a: Addr)
      requires Valid() && Trees.WellFormed(Model) && children.Some? && Contains(prefix, a)
      modifies Repr
      ensures Valid() && old(Repr) <= Repr && fresh(Repr - old(Repr))
      ensures Model == Trees.Push(old(Model), a).value
      decreases Repr, 3
    {
      Trees.PushEntersChildren(Model, a);
      ghost var ms, p := Model.children.nodes, prefix;
      var placed := PassChildren(a);
      if !placed {
        Trees.PassEnds(ms, a, p);
        AppendChild(a);
      }
    }

    /**
      The loop itself: the children in order are each given their turn, and
      the first one that takes `a` in or merges with it ends the loop. When
      none does, nothing has changed and the pass has gone past every child.
     */
    method PassChildren(a: Addr) returns (placed: bool)
      requires Valid() && Trees.WellFormed(Model) && children.Some? && Contains(prefix, a)
      requires Canonical(prefix) && Trees.AllFit(Model.children.nodes, prefix)
      modifies Repr
      ensures Valid() && old(Repr) <= Repr && fresh(Repr - old(Repr))
      ensures placed ==> Model == Trees.Tree(old(prefix), Trees.Present(Trees.PushChildren(old(Model).children.nodes, a, old(prefix))))
      ensures !placed ==> Model == old(Model) && Repr == old(Repr) && children == old(children) && prefix == old(prefix)
      ensures !placed ==> Trees.PassReaches(old(Model).children.nodes, a, old(prefix), |old(Model).children.nodes|)
      decreases Repr, 2
    {
      var cs := children.value;
      ghost var ms, p := Model.children.nodes, prefix;
      Trees.PassStarts(ms, a, p);
      var i := 0;
      while i < |cs|
        invariant 0 <= i <= |cs|
        invariant Valid() && Model == old(Model) && Repr == old(Repr) && children == Some(cs) && prefix == p
        invariant Trees.PassReaches(ms, a, p, i)
        decreases |cs| - i
      {
        placed := Place(i, a);
        if placed {
          Trees.PassPlaces(ms, a, p, i);
          return;
        }
        Trees.PassSkips(ms, a, p, i);
        i := i + 1;
      }
      return false;
    }

    /**
      One turn of the loop of `push` at the child at `i`: the child is offered
      `a`; if it refuses, `common_of` is asked for a prefix the two share
      below this node's, and the child steps down under it with `a` beside it.
     */
    method Place(i: nat, a: Addr) returns (placed: bool)
      requires Valid() && Trees.WellFormed(Model) && children.Some? && i < |children.value| && Contains(prefix, a)
      modifies Repr
      ensures prefix == old(prefix) && children == old(children)
      ensures Valid() && old(Repr) <= Repr && fresh(Repr - old(Repr))
      ensures placed <==> Trees.PlaceAt(old(Model).children.nodes[i], a, old(prefix)).Some?
      ensures placed ==> Model == Trees.Tree(old(prefix), Trees.Present(old(Model).children.nodes[i := Trees.PlaceAt(old(Model).children.nodes[i], a, old(prefix)).value]))
      ensures !placed ==> Model == old(Model) && Repr == old(Repr)
      decreases Repr, 1
    {
      ghost var c := Model.children.nodes[i];
      assert Trees.ChildFits(c, prefix) && Trees.WellFormed(c);
      var taken := OfferChild(i, a);
      if taken {
        Trees.PlaceTakes(c, a, prefix);
        return true;
      }
      assert Trees.Push(c, a) == Err(a);
      var ch := children.value[i];
      WithinMissesIsLonger(ch.prefix, prefix, a);
      var common := CommonOf(ch.prefix, FromAddr(a), Some(prefix.maskLen + 1));
      if common.Some? {
        Trees.PlaceMerges(c, a, prefix, common.value);
        MergeChild(i, a, common.value);
        return true;
      }
      Trees.PlacePasses(c, a, prefix);
      return false;
    }

    /** `ch.push(new_addr)` for the child at `i`; on `Ok` the node takes in the child's new state. */
    method OfferChild(i: nat, a: Addr) returns (taken: bool)
      requires Valid() && Trees.WellFormed(Model) && children.Some? && i < |children.value|
      modifies Repr
      ensures prefix == old(prefix) && children == old(children)
      ensures taken <==> Contains(old(Model).children.nodes[i].prefix, a)
      ensures taken ==> Valid() && old(Repr) <= Repr && fresh(Repr - old(Repr))
      ensures taken ==> Model == Trees.Tree(old(prefix), Trees.Present(old(Model).children.nodes[i := Trees.Push(old(Model).children.nodes[i], a).value]))
      ensures !taken ==> Repr == old(Repr) && unchanged(Repr)
      decreases Repr, 0
    {
      var ch := children.value[i];
      assert Trees.ChildFits(Model.children.nodes[i], prefix) && Trees.WellFormed(Model.children.nodes[i]);
      var res := ch.Push(a);
      if res.Ok? {
        Repr := Repr + ch.Repr;
        Model := Trees.Tree(prefix, Trees.Present(Model.children.nodes[i := ch.Model]));
        Reattach(i);
        return true;
      }
      return false;
    }

    /** `ch.stepdown(new_prefix, AddressTree::of(&new_addr))` for the child at `i`. */
    method MergeChild(i: nat, a: Addr, np: Prefix)
      requires Valid() && children.Some? && i < |children.value|
      modifies Repr
      ensures Valid() && old(Repr) <= Repr && fresh(Repr - old(Repr))
      ensures prefix == old(prefix) && children == old(children)
      ensures Model == Trees.Tree(old(prefix), Trees.Present(old(Model).children.nodes[i := Trees.Stepdown(old(Model).children.nodes[i], np, Trees.Of(a))]))
    {
      var ch := children.value[i];
      var neighbour := new AddressTree.Of(a);
      ch.Stepdown(np, neighbour);
      Repr := Repr + ch.Repr;
      Model := Trees.Tree(prefix, Trees.Present(Model.children.nodes[i := ch.Model]));
      Reattach(i);
    }

    /** `children.push(AddressTree::of(&new_addr))`. */
    method AppendChild(a: Addr)
      requires Valid() && children.Some?
      modifies this
      ensures Valid() && old(Repr) <= Repr && fresh(Repr - old(Repr))
      ensures Model == Trees.Tree(old(prefix), Trees.Present(old(Model).children.nodes + [Trees.Of(a)]))
    {
      var leaf := new AddressTree.Of(a);
      children := Some(children.value + [leaf]);
      Model := Trees.Tree(prefix, Trees.Present(Model.children.nodes + [Trees.Of(a)]));
      Repr := Repr + leaf.Repr;
    }

    /**
      After the child at `i` changed in place, growing only by new nodes, and
      this node took in its new `Repr` and `Model`, the node is valid again:
      the siblings lie outside what changed.
     */
    twostate lemma Reattach(i: nat)
      requires old(Valid()) && old(children).Some? && i < |old(children).value|
      requires prefix == old(prefix) && children == old(children)
      requires children.value[i].Valid()
      requires old(children.value[i].Repr) <= children.value[i].Repr
      requires this !in children.value[i].Repr
      requires fresh(children.value[i].Repr - old(children.value[i].Repr))
      requires unchanged(old(Repr) - old(children.value[i].Repr) - {this})
      requires Repr == old(Repr) + children.value[i].Repr
      requires Model == Trees.Tree(prefix, Trees.Present(old(Model).children.nodes[i := children.value[i].Model]))
      ensures Valid()
    {
      var cs := children.value;
      forall j | 0 <= j < |cs| && j != i
        ensures cs[j].Repr == old(cs[j].Repr) && cs[j].Model == old(cs[j].Model) && cs[j].Valid()
      {
        assert old(cs[j].Repr) !! old(cs[i].Repr) by {
          if j < i {} else {}
        }
        assert cs[j] in old(cs[j].Repr);
      }
    }
  }

  /**
    The loop of `find_subnets` that feeds one file's addresses to the tree:
    each address is popped off the end of the list and pushed. The source
    gives up with an error when a push is refused; a tree rooted at 0.0.0.0/0
    refuses nothing, so that never happens.
   */
  method PushEach(t: AddressTree, addrs: seq<Addr>)
    requires t.Valid() && Trees.WellFormed(t.Model) && t.Model.prefix == Root()
    modifies t.Repr
    ensures t.Valid() && Trees.WellFormed(t.Model) && fresh(t.Repr - old(t.Repr))
    ensures t.Model == Trees.PushAllOf(old(t.Model), addrs)
  {
    var rest := addrs;
    while |rest| > 0
      invariant t.Valid() && Trees.WellFormed(t.Model) && t.Model.prefix == Root()
      invariant old(t.Repr) <= t.Repr && fresh(t.Repr - old(t.Repr))
      invariant Trees.PushAllOf(t.Model, rest) == Trees.PushAllOf(old(t.Model), addrs)
      decreases |rest|
    {
      Trees.PushAllOfStep(t.Model, rest);
      var a := rest[|rest| - 1];
      rest := rest[..|rest| - 1];
      var r := t.Push(a);
      assert r.Ok?;
    }
  }
}
