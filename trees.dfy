/**
  The prefix trie `AddressTree` of src/lib.rs as a value: a node holds a
  prefix and either no child list or an ordered list of child nodes. The
  operations here are the specification of the in-place class in
  address_tree.dfy and of the read-only traversals.
 */
module Trees {
  import opened Wrappers
  import opened Prefixes

  /** `Option<Vec<AddressTree>>`: a node has no child list, or an ordered one. */
  datatype Children = Absent | Present(nodes: seq<Tree>)

  datatype Tree = Tree(prefix: Prefix, children: Children)

  /** `AddressTree::new`: an empty tree rooted at 0.0.0.0/0. */
  function New(): (t: Tree)
    ensures WellFormed(t)
  {
    Tree(Root(), Absent)
  }

  /** `AddressTree::of`: a childless node holding the /32 of `a`. */
  function Of(a: Addr): Tree
  {
    Tree(FromAddr(a), Absent)
  }

  /**
    `AddressTree::stepdown`, on values: the node takes the prefix `newPrefix`
    and its children become its old self followed by `neighbour`.
   */
  function Stepdown(t: Tree, newPrefix: Prefix, neighbour: Tree): Tree
  {
    Tree(newPrefix, Present([t, neighbour]))
  }

  /**
    How a child sits under a parent prefix: inside it, strictly longer unless
    the parent is a /32, and a single address when it has no child list.
   */
  predicate ChildFits(c: Tree, p: Prefix)
  {
    Within(c.prefix, p) && (p.maskLen < 32 ==> p.maskLen < c.prefix.maskLen) &&
    (c.children.Absent? ==> c.prefix.maskLen == 32)
  }

  /** `x` and `y` lie in different halves of `p`: they differ on the first bit after `p`'s mask. */
  predicate Split(x: bv32, y: bv32, p: Prefix)
  {
    p.maskLen < 32 && !Agree(x, y, p.maskLen + 1)
  }

  /** Siblings under `p` lie pairwise in different halves of it. */
  predicate Apart(cs: seq<Tree>, p: Prefix)
  {
    forall i, j :: 0 <= i < j < |cs| ==> Split(cs[i].prefix.bean, cs[j].prefix.bean, p)
  }

  /** Every node of `cs` lies in the other half of `p` from `y`. */
  predicate ApartFrom(y: bv32, cs: seq<Tree>, p: Prefix)
  {
    forall i :: 0 <= i < |cs| ==> Split(y, cs[i].prefix.bean, p)
  }

  /**
    The shape every tree built by `new` and `push` keeps: canonical prefixes,
    a child list, once present, never empty, each child inside its parent,
    siblings in different halves of their parent (so no two siblings
    overlap), and every childless node below the root a single address.
   */
  predicate WellFormed(t: Tree)
  {
    Canonical(t.prefix) &&
    (t.children.Present? ==>
      |t.children.nodes| > 0 &&
      (forall i :: 0 <= i < |t.children.nodes| ==>
        ChildFits(t.children.nodes[i], t.prefix) && WellFormed(t.children.nodes[i])) &&
      Apart(t.children.nodes, t.prefix))
  }

  /** A child list every member of which fits under `p` and is well formed. */
  predicate AllFit(cs: seq<Tree>, p: Prefix)
  {
    forall i :: 0 <= i < |cs| ==> ChildFits(cs[i], p) && WellFormed(cs[i])
  }

  /**
    `AddressTree::push`. A node whose prefix misses `a` refuses it with
    `Err(a)`. A childless node takes `a` as its only child. Otherwise the
    children are offered `a` in order by `PushChildren`, and the push always
    succeeds.
   */
  function Push(t: Tree, a: Addr): Result<Tree, Addr>
    requires WellFormed(t)
    decreases t, 0
  {
    if !Contains(t.prefix, a) then Err(a)
    else match t.children
      case Absent => Ok(Tree(t.prefix, Present([Of(a)])))
      case Present(cs) => Ok(Tree(t.prefix, Present(PushChildren(cs, a, t.prefix))))
  }

  /**
    The single pass of `push` over the children of a node with prefix `p`:
    the children are taken in order, and the first one `PlaceAt` places `a`
    at is replaced by the result, ending the pass. A pass that goes past every
    child appends `a` as a new child.
   */
  function PushChildren(cs: seq<Tree>, a: Addr, p: Prefix): seq<Tree>
    requires Canonical(p) && Contains(p, a) && AllFit(cs, p)
    decreases cs
  {
    if |cs| == 0 then [Of(a)]
    else
      match PlaceAt(cs[0], a, p)
      case Some(c) => [c] + cs[1..]
      case None => [cs[0]] + PushChildren(cs[1..], a, p)
  }

  /**
    One turn of the pass, at child `c`: the child is offered `a` and takes it
    when its prefix holds it; when it refuses, `common_of` of its prefix and
    `a`, bounded below by one bit more than `p`, decides whether it steps
    down under the common prefix with `a` as its sibling. `None` is the child
    letting `a` pass.
   */
  function PlaceAt(c: Tree, a: Addr, p: Prefix): Option<Tree>
    requires Canonical(p) && Contains(p, a) && ChildFits(c, p) && WellFormed(c)
    decreases c, 1
  {
    match Push(c, a)
    case Ok(c') => Some(c')
    case Err(_) =>
      WithinMissesIsLonger(c.prefix, p, a);
      match Common(c.prefix, FromAddr(a), Some(p.maskLen + 1))
      case Some(np) => Some(Stepdown(c, np, Of(a)))
      case None => None
  }

  lemma PlaceTakes(c: Tree, a: Addr, p: Prefix)
    requires Canonical(p) && Contains(p, a) && ChildFits(c, p) && WellFormed(c)
    requires Contains(c.prefix, a)
    ensures PlaceAt(c, a, p) == Some(Push(c, a).value)
  {
  }

  lemma PlaceMerges(c: Tree, a: Addr, p: Prefix, np: Prefix)
    requires Canonical(p) && Contains(p, a) && ChildFits(c, p) && WellFormed(c)
    requires !Contains(c.prefix, a) && p.maskLen + 1 <= c.prefix.maskLen
    requires Common(c.prefix, FromAddr(a), Some(p.maskLen + 1)) == Some(np)
    ensures PlaceAt(c, a, p) == Some(Stepdown(c, np, Of(a)))
  {
    PushRefusesOutside(c, a);
  }

  lemma PlacePasses(c: Tree, a: Addr, p: Prefix)
    requires Canonical(p) && Contains(p, a) && ChildFits(c, p) && WellFormed(c)
    requires !Contains(c.prefix, a) && p.maskLen + 1 <= c.prefix.maskLen
    requires Common(c.prefix, FromAddr(a), Some(p.maskLen + 1)).None?
    ensures PlaceAt(c, a, p).None?
  {
    assert Push(c, a) == Err(a);
  }

  /** A node holding `a` with a child list hands `a` to the pass over that list. */
  lemma PushEntersChildren(t: Tree, a: Addr)
    requires WellFormed(t) && Contains(t.prefix, a) && t.children.Present?
    ensures Canonical(t.prefix) && AllFit(t.children.nodes, t.prefix)
    ensures Push(t, a) == Ok(Tree(t.prefix, Present(PushChildren(t.children.nodes, a, t.prefix))))
  {
  }

  /** `push` on a tree from `new` always succeeds: the root holds every address. */
  lemma PushNewAccepts(a: Addr)
    ensures Push(New(), a).Ok?
  {
    assert Contains(Root(), a);
  }

  /** `push` refuses exactly the addresses outside the node's prefix, and keeps the prefix. */
  lemma PushRefusesOutside(t: Tree, a: Addr)
    requires WellFormed(t)
    ensures Push(t, a).Err? <==> !Contains(t.prefix, a)
    ensures Push(t, a).Err? ==> Push(t, a).error == a
    ensures Push(t, a).Ok? ==> Push(t, a).value.prefix == t.prefix
  {
  }

  /** `push` keeps a tree well formed: children stay inside their parents. */
  lemma PushWellFormed(t: Tree, a: Addr)
    requires WellFormed(t)
    ensures Push(t, a).Ok? ==> WellFormed(Push(t, a).value)
    decreases t, 1
  {
    if Contains(t.prefix, a) {
      match t.children
      case Absent =>
        assert ChildFits(Of(a), t.prefix);
      case Present(cs) =>
        PushChildrenFit(cs, a, t.prefix);
        PushChildrenApart(cs, a, t.prefix);
    }
  }

  /** One pass over the children leaves every child inside the parent and well formed. */
  lemma PushChildrenFit(cs: seq<Tree>, a: Addr, p: Prefix)
    requires Canonical(p) && Contains(p, a) && AllFit(cs, p)
    ensures AllFit(PushChildren(cs, a, p), p)
    decreases cs, 0
  {
    if |cs| == 0 {
      assert ChildFits(Of(a), p);
    } else {
      var c := cs[0];
      match PlaceAt(c, a, p)
      case Some(n) =>
        HeadPlaces(cs, a, p);
        PlacedFits(c, a, p);
        ConsFit(n, cs[1..], p);
      case None =>
        HeadSkips(cs, a, p);
        PushChildrenFit(cs[1..], a, p);
        ConsFit(c, PushChildren(cs[1..], a, p), p);
    }
  }

  /** Whatever one turn puts in place of a child still fits under the parent. */
  lemma PlacedFits(c: Tree, a: Addr, p: Prefix)
    requires Canonical(p) && Contains(p, a) && ChildFits(c, p) && WellFormed(c)
    requires PlaceAt(c, a, p).Some?
    ensures ChildFits(PlaceAt(c, a, p).value, p) && WellFormed(PlaceAt(c, a, p).value)
    decreases c, 3
  {
    if Contains(c.prefix, a) {
      PlaceTakes(c, a, p);
      PushedChildFits(c, a, p);
    } else {
      WithinMissesIsLonger(c.prefix, p, a);
      var common := Common(c.prefix, FromAddr(a), Some(p.maskLen + 1));
      if common.Some? {
        PlaceMerges(c, a, p, common.value);
        StepdownFits(c, a, p, common.value);
      } else {
        assert false;
      }
    }
  }

  /** A child that accepts `a` keeps its prefix, so it still fits under the parent. */
  lemma PushedChildFits(c: Tree, a: Addr, p: Prefix)
    requires ChildFits(c, p) && WellFormed(c) && Contains(c.prefix, a)
    ensures ChildFits(Push(c, a).value, p) && WellFormed(Push(c, a).value)
    decreases c, 2
  {
    PushWellFormed(c, a);
  }

  lemma ConsFit(x: Tree, rest: seq<Tree>, p: Prefix)
    requires ChildFits(x, p) && WellFormed(x) && AllFit(rest, p)
    ensures AllFit([x] + rest, p)
  {
  }

  /**
    A child that refused `a` and stepped down under its common prefix with
    `a` still fits under the parent: the common prefix is at least one bit
    longer than the parent's and holds both the old child and `a`.
   */
  lemma StepdownFits(c: Tree, a: Addr, p: Prefix, np: Prefix)
    requires Canonical(p) && Contains(p, a) && ChildFits(c, p) && WellFormed(c)
    requires !Contains(c.prefix, a)
    requires p.maskLen + 1 <= c.prefix.maskLen
    requires Common(c.prefix, FromAddr(a), Some(p.maskLen + 1)) == Some(np)
    ensures ChildFits(Stepdown(c, np, Of(a)), p) && WellFormed(Stepdown(c, np, Of(a)))
  {
    CommonFound(c.prefix, FromAddr(a), Some(p.maskLen + 1), np);
    CommonContainsBoth(c.prefix, FromAddr(a), Some(p.maskLen + 1), np);
    WithinWider(c.prefix, np, p);
    CommonSplits(c.prefix, a, p.maskLen + 1, np);
    var n := Stepdown(c, np, Of(a));
    assert ChildFits(n.children.nodes[0], np);
    assert ChildFits(n.children.nodes[1], np);
    assert Apart(n.children.nodes, np);
  }

  /** One pass over the children keeps them in pairwise different halves of the parent. */
  lemma PushChildrenApart(cs: seq<Tree>, a: Addr, p: Prefix)
    requires Canonical(p) && Contains(p, a) && AllFit(cs, p) && Apart(cs, p)
    ensures Apart(PushChildren(cs, a, p), p)
    decreases cs
  {
    if |cs| > 0 {
      var c, rest := cs[0], cs[1..];
      assert AllFit(rest, p) && Apart(rest, p) && ApartFrom(c.prefix.bean, rest, p);
      match PlaceAt(c, a, p)
      case Some(n) =>
        HeadPlaces(cs, a, p);
        if |rest| > 0 {
          assert Split(c.prefix.bean, rest[0].prefix.bean, p);
          PlacedHalf(c, a, p);
          ApartFromAgree(c.prefix.bean, n.prefix.bean, rest, p);
        }
        ApartCons(n, rest, p);
      case None =>
        HeadSkips(cs, a, p);
        RefusedSplits(c, a, p);
        PushChildrenApart(rest, a, p);
        PushChildrenApartFrom(rest, a, p, c.prefix.bean);
        ApartCons(c, PushChildren(rest, a, p), p);
    }
  }

  /** A pass leaves every child in the other half of `p` from `y`, when `a` is there too. */
  lemma PushChildrenApartFrom(cs: seq<Tree>, a: Addr, p: Prefix, y: bv32)
    requires Canonical(p) && Contains(p, a) && AllFit(cs, p)
    requires ApartFrom(y, cs, p) && Split(y, a, p)
    ensures ApartFrom(y, PushChildren(cs, a, p), p)
    decreases cs
  {
    if |cs| > 0 {
      var c, rest := cs[0], cs[1..];
      assert AllFit(rest, p) && ApartFrom(y, rest, p);
      match PlaceAt(c, a, p)
      case Some(n) =>
        HeadPlaces(cs, a, p);
        PlacedHalf(c, a, p);
        ApartFromCons(y, n, rest, p);
      case None =>
        HeadSkips(cs, a, p);
        PushChildrenApartFrom(rest, a, p, y);
        ApartFromCons(y, c, PushChildren(rest, a, p), p);
    }
  }

  /** What a turn puts in place of a child lies in the same half of the parent as the child. */
  lemma PlacedHalf(c: Tree, a: Addr, p: Prefix)
    requires Canonical(p) && Contains(p, a) && ChildFits(c, p) && WellFormed(c)
    requires PlaceAt(c, a, p).Some? && p.maskLen < 32
    ensures Agree(PlaceAt(c, a, p).value.prefix.bean, c.prefix.bean, p.maskLen + 1)
  {
    if Contains(c.prefix, a) {
      PlaceTakes(c, a, p);
      PushRefusesOutside(c, a);
    } else {
      WithinMissesIsLonger(c.prefix, p, a);
      var common := Common(c.prefix, FromAddr(a), Some(p.maskLen + 1));
      if common.Some? {
        var np := common.value;
        PlaceMerges(c, a, p, np);
        CommonFound(c.prefix, FromAddr(a), Some(p.maskLen + 1), np);
        ContainsIsAgree(np, c.prefix.bean);
        AgreeShorter(c.prefix.bean, np.bean, np.maskLen, p.maskLen + 1);
      } else {
        assert false;
      }
    }
  }

  /** A child that lets `a` pass lies in the other half of the parent from `a`. */
  lemma RefusedSplits(c: Tree, a: Addr, p: Prefix)
    requires Canonical(p) && Contains(p, a) && ChildFits(c, p) && WellFormed(c)
    requires PlaceAt(c, a, p).None?
    ensures Split(c.prefix.bean, a, p)
  {
    assert Push(c, a).Err?;
    PushRefusesOutside(c, a);
    WithinMissesIsLonger(c.prefix, p, a);
    CommonNoneIff(c.prefix, FromAddr(a), Some(p.maskLen + 1));
  }

  lemma ApartCons(x: Tree, rest: seq<Tree>, p: Prefix)
    requires ApartFrom(x.prefix.bean, rest, p) && Apart(rest, p)
    ensures Apart([x] + rest, p)
  {
    var xs := [x] + rest;
    forall i, j | 0 <= i < j < |xs|
      ensures Split(xs[i].prefix.bean, xs[j].prefix.bean, p)
    {
      assert xs[j] == rest[j - 1];
      if i > 0 {
        assert xs[i] == rest[i - 1];
      }
    }
  }

  lemma ApartFromCons(y: bv32, x: Tree, rest: seq<Tree>, p: Prefix)
    requires Split(y, x.prefix.bean, p) && ApartFrom(y, rest, p)
    ensures ApartFrom(y, [x] + rest, p)
  {
    var xs := [x] + rest;
    forall i | 0 < i < |xs|
      ensures Split(y, xs[i].prefix.bean, p)
    {
      assert xs[i] == rest[i - 1];
    }
  }

  lemma ApartFromAgree(x: bv32, x': bv32, cs: seq<Tree>, p: Prefix)
    requires ApartFrom(x, cs, p) && p.maskLen < 32 && Agree(x', x, p.maskLen + 1)
    ensures ApartFrom(x', cs, p)
  {
  }

  /**
    The pass of `push` over `cs` has gone past the first `i` children: each
    of them refused `a` and shared no prefix with it within the bound, so the
    outcome rests on the children from `i` on.
   */
  predicate PassReaches(cs: seq<Tree>, a: Addr, p: Prefix, i: nat)
    requires Canonical(p) && Contains(p, a) && AllFit(cs, p) && i <= |cs|
  {
    PushChildren(cs, a, p) == cs[..i] + PushChildren(cs[i..], a, p)
  }

  lemma PassStarts(cs: seq<Tree>, a: Addr, p: Prefix)
    requires Canonical(p) && Contains(p, a) && AllFit(cs, p)
    ensures PassReaches(cs, a, p, 0)
  {
    assert cs[..0] + PushChildren(cs[0..], a, p) == PushChildren(cs, a, p) by {
      assert cs[0..] == cs;
    }
  }

  /** A child that lets `a` pass moves the pass on to the next child. */
  lemma PassSkips(cs: seq<Tree>, a: Addr, p: Prefix, i: nat)
    requires Canonical(p) && Contains(p, a) && AllFit(cs, p) && i < |cs|
    requires PassReaches(cs, a, p, i)
    requires PlaceAt(cs[i], a, p).None?
    ensures PassReaches(cs, a, p, i + 1)
  {
    var rest := cs[i..];
    assert rest[0] == cs[i] && rest[1..] == cs[i + 1..];
    HeadSkips(rest, a, p);
    var tail := PushChildren(cs[i + 1..], a, p);
    assert PushChildren(rest, a, p) == [cs[i]] + tail;
    assert PushChildren(cs, a, p) == cs[..i] + PushChildren(rest, a, p);
    Regroup(cs, i, tail);
  }

  /** The first child one turn places `a` at is replaced, and no other child changes. */
  lemma PassPlaces(cs: seq<Tree>, a: Addr, p: Prefix, i: nat)
    requires Canonical(p) && Contains(p, a) && AllFit(cs, p) && i < |cs|
    requires PassReaches(cs, a, p, i)
    requires PlaceAt(cs[i], a, p).Some?
    ensures PushChildren(cs, a, p) == cs[i := PlaceAt(cs[i], a, p).value]
  {
    var rest := cs[i..];
    assert rest[0] == cs[i] && rest[1..] == cs[i + 1..];
    HeadPlaces(rest, a, p);
    Splice(cs, i, PlaceAt(cs[i], a, p).value);
  }

  lemma HeadPlaces(cs: seq<Tree>, a: Addr, p: Prefix)
    requires Canonical(p) && Contains(p, a) && AllFit(cs, p) && 0 < |cs|
    requires PlaceAt(cs[0], a, p).Some?
    ensures PushChildren(cs, a, p) == [PlaceAt(cs[0], a, p).value] + cs[1..]
  {
  }

  lemma HeadSkips(cs: seq<Tree>, a: Addr, p: Prefix)
    requires Canonical(p) && Contains(p, a) && AllFit(cs, p) && 0 < |cs|
    requires PlaceAt(cs[0], a, p).None?
    ensures PushChildren(cs, a, p) == [cs[0]] + PushChildren(cs[1..], a, p)
  {
    assert AllFit(cs[1..], p);
  }

  lemma Regroup<T>(s: seq<T>, i: nat, tail: seq<T>)
    requires i < |s|
    ensures s[..i] + ([s[i]] + tail) == s[..i + 1] + tail
  {
    assert s[..i] + [s[i]] == s[..i + 1];
  }

  lemma Splice<T>(s: seq<T>, i: nat, x: T)
    requires i < |s|
    ensures s[..i] + ([x] + s[i + 1..]) == s[i := x]
  {
  }

  /** A pass that goes past every child appends `a` as the last child. */
  lemma PassEnds(cs: seq<Tree>, a: Addr, p: Prefix)
    requires Canonical(p) && Contains(p, a) && AllFit(cs, p)
    requires PassReaches(cs, a, p, |cs|)
    ensures PushChildren(cs, a, p) == cs + [Of(a)]
  {
    assert cs[..|cs|] == cs && cs[|cs|..] == [];
  }

  /** `get_leafs`: the childless nodes below `t`, in child order; `t` itself is never one. */
  function Leafs(t: Tree): seq<Tree>
    decreases t, 0
  {
    match t.children
    case Absent => []
    case Present(cs) => LeafsOf(cs)
  }

  function LeafsOf(cs: seq<Tree>): seq<Tree>
    decreases cs, 0
  {
    if |cs| == 0 then [] else LeafsFrom(cs[0]) + LeafsOf(cs[1..])
  }

  /** What one child adds to `get_leafs`: itself when it has no child list, its leaves otherwise. */
  function LeafsFrom(c: Tree): seq<Tree>
    decreases c, 1
  {
    if c.children.Absent? then [c] else Leafs(c)
  }

  /** Every node strictly below `t`, depth first, each node before its children. */
  function Descendants(t: Tree): seq<Tree>
    decreases t, 0
  {
    match t.children
    case Absent => []
    case Present(cs) => DescendantsOf(cs)
  }

  function DescendantsOf(cs: seq<Tree>): seq<Tree>
    decreases cs, 0
  {
    if |cs| == 0 then [] else [cs[0]] + Descendants(cs[0]) + DescendantsOf(cs[1..])
  }

  /** The members of `s` that have no child list, in order. */
  function Childless(s: seq<Tree>): seq<Tree>
  {
    if |s| == 0 then [] else (if s[0].children.Absent? then [s[0]] else []) + Childless(s[1..])
  }

  lemma {:induction false} ChildlessConcat(x: seq<Tree>, y: seq<Tree>)
    ensures Childless(x + y) == Childless(x) + Childless(y)
  {
    if |x| == 0 {
      assert x + y == y;
    } else {
      var xy := x + y;
      assert xy[0] == x[0] && xy[1..] == x[1..] + y;
      ChildlessConcat(x[1..], y);
      var h := if x[0].children.Absent? then [x[0]] else [];
      assert Childless(xy) == h + (Childless(x[1..]) + Childless(y));
      assert Childless(x) == h + Childless(x[1..]);
    }
  }

  /** `get_leafs` returns exactly the childless descendants, in depth-first order. */
  lemma {:induction false} LeafsAreChildlessDescendants(t: Tree)
    ensures Leafs(t) == Childless(Descendants(t))
    decreases t, 0
  {
    match t.children
    case Absent =>
    case Present(cs) => LeafsOfChildless(cs);
  }

  lemma {:induction false} LeafsOfChildless(cs: seq<Tree>)
    ensures LeafsOf(cs) == Childless(DescendantsOf(cs))
    decreases cs, 0
  {
    if |cs| > 0 {
      var c := cs[0];
      LeafsOfChildless(cs[1..]);
      LeafsAreChildlessDescendants(c);
      ChildlessConcat([c] + Descendants(c), DescendantsOf(cs[1..]));
      ChildlessConcat([c], Descendants(c));
    }
  }

  /** The prefixes of a list of nodes, in order. */
  function PrefixList(s: seq<Tree>): seq<Prefix>
  {
    seq(|s|, i requires 0 <= i < |s| => s[i].prefix)
  }

  /** The prefixes of a list of nodes, as a multiset. */
  function PrefixBag(s: seq<Tree>): multiset<Prefix>
  {
    multiset(PrefixList(s))
  }

  lemma PrefixBagConcat(x: seq<Tree>, y: seq<Tree>)
    ensures PrefixBag(x + y) == PrefixBag(x) + PrefixBag(y)
  {
    assert PrefixList(x + y) == PrefixList(x) + PrefixList(y);
  }

  /** The leaves of a child list split into those of its first child and the rest. */
  lemma LeafBagCons(x: Tree, rest: seq<Tree>)
    ensures PrefixBag(LeafsOf([x] + rest)) == PrefixBag(LeafsFrom(x)) + PrefixBag(LeafsOf(rest))
  {
    assert ([x] + rest)[1..] == rest;
    PrefixBagConcat(LeafsFrom(x), LeafsOf(rest));
  }

  /**
    How the leaves change when `x` is pushed: one leaf holding `x` is added
    and none is lost, except that an `x` already present as a leaf may
    instead just be re-nested, leaving the leaves as they were.
   */
  predicate AddsLeaf(before: multiset<Prefix>, after: multiset<Prefix>, x: Prefix)
  {
    after == before + multiset{x} || (x in before && after == before)
  }

  lemma AddsLeafFrame(before: multiset<Prefix>, after: multiset<Prefix>, x: Prefix, rest: multiset<Prefix>)
    requires AddsLeaf(before, after, x)
    ensures AddsLeaf(before + rest, after + rest, x)
  {
  }

  /**
    `push` loses no leaf and adds the pushed address as a leaf; when the
    address was not a leaf yet, it is exactly one new leaf.
   */
  lemma PushKeepsLeaves(t: Tree, a: Addr)
    requires WellFormed(t) && Contains(t.prefix, a)
    ensures AddsLeaf(PrefixBag(Leafs(t)), PrefixBag(Leafs(Push(t, a).value)), FromAddr(a))
    ensures FromAddr(a) !in PrefixBag(Leafs(t)) ==>
      PrefixBag(Leafs(Push(t, a).value)) == PrefixBag(Leafs(t)) + multiset{FromAddr(a)}
  {
    match t.children
    case Absent =>
      assert Push(t, a).value.children.nodes == [Of(a)];
      OneLeaf(a);
    case Present(cs) =>
      PushChildrenLeaves(cs, a, t.prefix);
  }

  lemma OneLeaf(a: Addr)
    ensures LeafsOf([Of(a)]) == [Of(a)]
    ensures PrefixBag(LeafsOf([Of(a)])) == multiset{FromAddr(a)}
  {
    assert [Of(a)][1..] == [];
  }

  lemma {:induction false} PushChildrenLeaves(cs: seq<Tree>, a: Addr, p: Prefix)
    requires Canonical(p) && Contains(p, a) && AllFit(cs, p)
    ensures AddsLeaf(PrefixBag(LeafsOf(cs)), PrefixBag(LeafsOf(PushChildren(cs, a, p))), FromAddr(a))
    decreases cs, 0
  {
    if |cs| == 0 {
      OneLeaf(a);
    } else {
      var c, rest := cs[0], cs[1..];
      assert cs == [c] + rest;
      match PlaceAt(c, a, p)
      case Some(n) =>
        HeadPlaces(cs, a, p);
        PlacedLeaves(c, a, p);
        AddsLeafHead(c, n, rest, FromAddr(a));
      case None =>
        HeadSkips(cs, a, p);
        assert AllFit(rest, p);
        PushChildrenLeaves(rest, a, p);
        AddsLeafTail(c, rest, PushChildren(rest, a, p), FromAddr(a));
    }
  }

  /** Whatever one turn puts in place of a child adds `a` to its leaves, unless it was there. */
  lemma {:induction false} PlacedLeaves(c: Tree, a: Addr, p: Prefix)
    requires Canonical(p) && Contains(p, a) && ChildFits(c, p) && WellFormed(c)
    requires PlaceAt(c, a, p).Some?
    ensures AddsLeaf(PrefixBag(LeafsFrom(c)), PrefixBag(LeafsFrom(PlaceAt(c, a, p).value)), FromAddr(a))
    decreases c, 2
  {
    if Contains(c.prefix, a) {
      PlaceTakes(c, a, p);
      PushedChildLeaves(c, a, p);
    } else {
      WithinMissesIsLonger(c.prefix, p, a);
      var common := Common(c.prefix, FromAddr(a), Some(p.maskLen + 1));
      if common.Some? {
        PlaceMerges(c, a, p, common.value);
        StepdownLeaves(c, common.value, a);
      } else {
        assert false;
      }
    }
  }

  /** A change to the first child's leaves is a change to the whole list's. */
  lemma AddsLeafHead(c: Tree, c': Tree, rest: seq<Tree>, x: Prefix)
    requires AddsLeaf(PrefixBag(LeafsFrom(c)), PrefixBag(LeafsFrom(c')), x)
    ensures AddsLeaf(PrefixBag(LeafsOf([c] + rest)), PrefixBag(LeafsOf([c'] + rest)), x)
  {
    LeafBagCons(c, rest);
    LeafBagCons(c', rest);
    AddsLeafFrame(PrefixBag(LeafsFrom(c)), PrefixBag(LeafsFrom(c')), x, PrefixBag(LeafsOf(rest)));
  }

  /** A change to the leaves after the first child is a change to the whole list's. */
  lemma AddsLeafTail(c: Tree, rest: seq<Tree>, rest': seq<Tree>, x: Prefix)
    requires AddsLeaf(PrefixBag(LeafsOf(rest)), PrefixBag(LeafsOf(rest')), x)
    ensures AddsLeaf(PrefixBag(LeafsOf([c] + rest)), PrefixBag(LeafsOf([c] + rest')), x)
  {
    LeafBagCons(c, rest);
    LeafBagCons(c, rest');
    AddsLeafFrame(PrefixBag(LeafsOf(rest)), PrefixBag(LeafsOf(rest')), x, PrefixBag(LeafsFrom(c)));
  }

  /** After `stepdown`, the node's leaves are its old ones followed by the neighbour. */
  lemma StepdownLeaves(c: Tree, np: Prefix, a: Addr)
    ensures PrefixBag(LeafsFrom(Stepdown(c, np, Of(a)))) == PrefixBag(LeafsFrom(c)) + multiset{FromAddr(a)}
  {
    assert [c, Of(a)] == [c] + [Of(a)];
    LeafBagCons(c, [Of(a)]);
    OneLeaf(a);
  }

  /** The leaves one child contributes change as `AddsLeaf` says when the child accepts `a`. */
  lemma {:induction false} PushedChildLeaves(c: Tree, a: Addr, p: Prefix)
    requires ChildFits(c, p) && WellFormed(c) && Contains(c.prefix, a)
    ensures AddsLeaf(PrefixBag(LeafsFrom(c)), PrefixBag(LeafsFrom(Push(c, a).value)), FromAddr(a))
    decreases c, 1
  {
    match c.children
    case Absent =>
      HostIsFromAddr(c.prefix, a);
      assert Push(c, a).value.children.nodes == [Of(a)];
      OneLeaf(a);
    case Present(ns) =>
      PushChildrenLeaves(ns, a, c.prefix);
  }

  /** `children.iter().any(|ch| ch.prefix.mask_len == 32)`: some child is a single address. */
  predicate HasHostChild(t: Tree)
  {
    t.children.Present? &&
    exists i :: 0 <= i < |t.children.nodes| && t.children.nodes[i].prefix.maskLen == 32
  }

  /**
    `get_subnets`: depth first, the nodes with a /32 child. The walk stops at
    such a node and does not look below it; a node without a child list
    yields nothing.
   */
  function Subnets(t: Tree): seq<Tree>
    decreases t, 0
  {
    match t.children
    case Absent => []
    case Present(cs) => if HasHostChild(t) then [t] else SubnetsOf(cs)
  }

  function SubnetsOf(cs: seq<Tree>): seq<Tree>
    decreases cs, 0
  {
    if |cs| == 0 then [] else Subnets(cs[0]) + SubnetsOf(cs[1..])
  }

  /** Every subnet reported has a /32 child and is the tree itself or one of its descendants. */
  lemma {:induction false} SubnetsHaveHosts(t: Tree)
    ensures forall s :: s in Subnets(t) ==> HasHostChild(s) && (s == t || s in Descendants(t))
    decreases t, 0
  {
    match t.children
    case Absent =>
    case Present(cs) =>
      if !HasHostChild(t) {
        SubnetsOfHaveHosts(cs);
      }
  }

  lemma {:induction false} SubnetsOfHaveHosts(cs: seq<Tree>)
    ensures forall s :: s in SubnetsOf(cs) ==> HasHostChild(s) && s in DescendantsOf(cs)
    decreases cs, 0
  {
    if |cs| > 0 {
      SubnetsHaveHosts(cs[0]);
      SubnetsOfHaveHosts(cs[1..]);
    }
  }

  /** Every node below a well-formed tree is well formed and lies inside the tree's prefix. */
  lemma {:induction false} DescendantsInside(t: Tree)
    requires WellFormed(t)
    ensures forall x :: x in Descendants(t) ==> WellFormed(x) && Within(x.prefix, t.prefix)
    decreases t, 0
  {
    match t.children
    case Absent =>
    case Present(cs) =>
      assert AllFit(cs, t.prefix);
      DescendantsOfInside(cs, t.prefix);
  }

  lemma {:induction false} DescendantsOfInside(cs: seq<Tree>, p: Prefix)
    requires Canonical(p) && AllFit(cs, p)
    ensures forall x :: x in DescendantsOf(cs) ==> WellFormed(x) && Within(x.prefix, p)
    decreases cs, 0
  {
    if |cs| > 0 {
      var c, rest := cs[0], cs[1..];
      assert AllFit(rest, p);
      DescendantsInside(c);
      DescendantsOfInside(rest, p);
      forall x | x in Descendants(c)
        ensures Within(x.prefix, p)
      {
        WithinTransitive(x.prefix, c.prefix, p);
      }
    }
  }

  /** A node's descendants each have fewer descendants than it: no node lies below itself. */
  lemma {:induction false} DescendantsShrink(t: Tree)
    ensures forall x :: x in Descendants(t) ==> |Descendants(x)| < |Descendants(t)|
    decreases t, 0
  {
    match t.children
    case Absent =>
    case Present(cs) => DescendantsOfShrink(cs);
  }

  lemma {:induction false} DescendantsOfShrink(cs: seq<Tree>)
    ensures forall x :: x in DescendantsOf(cs) ==> |Descendants(x)| < |DescendantsOf(cs)|
    decreases cs, 0
  {
    if |cs| > 0 {
      DescendantsShrink(cs[0]);
      DescendantsOfShrink(cs[1..]);
    }
  }

  /** Every reported subnet of a well-formed tree is well formed and lies inside the tree's prefix. */
  lemma SubnetsInside(t: Tree)
    requires WellFormed(t)
    ensures forall s :: s in Subnets(t) ==> WellFormed(s) && Within(s.prefix, t.prefix)
  {
    SubnetsHaveHosts(t);
    DescendantsInside(t);
    assert Contains(t.prefix, t.prefix.bean);
  }

  /** No two entries of a list of nodes have overlapping prefixes. */
  predicate Separate(ss: seq<Tree>)
  {
    forall i, j :: 0 <= i < j < |ss| ==> !Overlap(ss[i].prefix, ss[j].prefix)
  }

  /**
    The subnets `get_subnets` reports from a well-formed tree are pairwise
    disjoint: no two of them share an address.
   */
  lemma {:induction false} SubnetsSeparate(t: Tree)
    requires WellFormed(t)
    ensures Separate(Subnets(t))
    decreases t, 0
  {
    match t.children
    case Absent =>
    case Present(cs) =>
      if !HasHostChild(t) {
        assert AllFit(cs, t.prefix);
        SubnetsOfSeparate(cs, t.prefix);
      }
  }

  lemma {:induction false} SubnetsOfSeparate(cs: seq<Tree>, p: Prefix)
    requires Canonical(p) && AllFit(cs, p) && Apart(cs, p)
    ensures Separate(SubnetsOf(cs))
    decreases cs, 0
  {
    if |cs| > 0 {
      var c, rest := cs[0], cs[1..];
      assert AllFit(rest, p) && Apart(rest, p);
      SubnetsSeparate(c);
      SubnetsOfSeparate(rest, p);
      var xs, ys := Subnets(c), SubnetsOf(rest);
      if |rest| > 0 {
        assert Split(c.prefix.bean, rest[0].prefix.bean, p);
        assert ApartFrom(c.prefix.bean, rest, p);
        SubnetsOfSplit(rest, p, c.prefix.bean);
        SubnetsInside(c);
        forall x, y | x in xs && y in ys
          ensures !Overlap(x.prefix, y.prefix)
        {
          SplitSeparates(x.prefix, y.prefix, c.prefix, p);
        }
      }
      SeparateConcat(xs, ys);
    }
  }

  /**
    The subnets reported below a list of siblings all lie in the other half
    of the parent from `y`, and are longer than the parent.
   */
  lemma {:induction false} SubnetsOfSplit(cs: seq<Tree>, p: Prefix, y: bv32)
    requires Canonical(p) && AllFit(cs, p) && ApartFrom(y, cs, p)
    ensures forall s :: s in SubnetsOf(cs) ==> Split(y, s.prefix.bean, p) && p.maskLen < s.prefix.maskLen
    decreases cs
  {
    if |cs| > 0 {
      var c, rest := cs[0], cs[1..];
      assert AllFit(rest, p) && ApartFrom(y, rest, p);
      assert Split(y, c.prefix.bean, p);
      SubnetsOfSplit(rest, p, y);
      SubnetsInside(c);
      forall s | s in Subnets(c)
        ensures Split(y, s.prefix.bean, p) && p.maskLen < s.prefix.maskLen
      {
        InsideAgrees(s.prefix, c.prefix, p.maskLen + 1);
        SplitShared(y, s.prefix.bean, c.prefix.bean, p);
      }
    }
  }

  /** An address agreeing with `c` past `p`'s mask lies in the same half of `p` as `c`. */
  lemma SplitShared(y: bv32, x: bv32, c: bv32, p: Prefix)
    requires Split(y, c, p) && Agree(x, c, p.maskLen + 1)
    ensures Split(y, x, p)
  {
  }

  /** A prefix inside `c` and one in the other half of `p` from `c` do not overlap. */
  lemma SplitSeparates(x: Prefix, y: Prefix, c: Prefix, p: Prefix)
    requires Canonical(c) && Within(x, c) && p.maskLen < c.maskLen
    requires Split(c.bean, y.bean, p) && p.maskLen < y.maskLen
    ensures !Overlap(x, y)
  {
    InsideAgrees(x, c, p.maskLen + 1);
    if Overlap(x, y) {
      AgreeShorter(x.bean, y.bean, Min(x.maskLen, y.maskLen), p.maskLen + 1);
    }
  }

  lemma SeparateConcat(xs: seq<Tree>, ys: seq<Tree>)
    requires Separate(xs) && Separate(ys)
    requires forall x, y :: x in xs && y in ys ==> !Overlap(x.prefix, y.prefix)
    ensures Separate(xs + ys)
  {
    var zs := xs + ys;
    forall i, j | 0 <= i < j < |zs|
      ensures !Overlap(zs[i].prefix, zs[j].prefix)
    {
      if j < |xs| {
        assert zs[i] == xs[i] && zs[j] == xs[j];
      } else if i >= |xs| {
        assert zs[i] == ys[i - |xs|] && zs[j] == ys[j - |xs|];
      } else {
        assert zs[i] in xs && zs[j] in ys;
      }
    }
  }

  /**
    The chop of `get_subnets`: once a node is reported, nothing below it is
    reported as well.
   */
  lemma SubnetsChop(t: Tree)
    requires WellFormed(t)
    ensures forall s, s' :: s in Subnets(t) && s' in Subnets(t) ==> s' !in Descendants(s)
  {
    var ss := Subnets(t);
    SubnetsSeparate(t);
    SubnetsInside(t);
    forall s, s' | s in ss && s' in ss
      ensures s' !in Descendants(s)
    {
      if s' in Descendants(s) {
        DescendantsInside(s);
        InsideAgrees(s'.prefix, s.prefix, s.prefix.maskLen);
        assert Overlap(s.prefix, s'.prefix);
        var i :| 0 <= i < |ss| && ss[i] == s;
        var j :| 0 <= j < |ss| && ss[j] == s';
        if i == j {
          DescendantsShrink(s);
        }
        assert false;
      }
    }
  }

  /**
    The other half of the chop: every node of the tree with a /32 child is
    reported, or lies below a reported subnet.
   */
  lemma {:induction false} HostNodesReported(t: Tree)
    ensures forall x :: (x == t || x in Descendants(t)) && HasHostChild(x) ==>
      exists s :: s in Subnets(t) && (x == s || x in Descendants(s))
    decreases t, 0
  {
    match t.children
    case Absent =>
    case Present(cs) =>
      if HasHostChild(t) {
        assert Subnets(t) == [t];
        forall x | (x == t || x in Descendants(t)) && HasHostChild(x)
          ensures exists s :: s in Subnets(t) && (x == s || x in Descendants(s))
        {
          assert t in Subnets(t);
        }
      } else {
        HostNodesOfReported(cs);
      }
  }

  lemma {:induction false} HostNodesOfReported(cs: seq<Tree>)
    ensures forall x :: x in DescendantsOf(cs) && HasHostChild(x) ==>
      exists s :: s in SubnetsOf(cs) && (x == s || x in Descendants(s))
    decreases cs, 0
  {
    if |cs| > 0 {
      var c, rest := cs[0], cs[1..];
      HostNodesReported(c);
      HostNodesOfReported(rest);
      assert DescendantsOf(cs) == [c] + Descendants(c) + DescendantsOf(rest);
      assert SubnetsOf(cs) == Subnets(c) + SubnetsOf(rest);
      forall x | x in DescendantsOf(cs) && HasHostChild(x)
        ensures exists s :: s in SubnetsOf(cs) && (x == s || x in Descendants(s))
      {
        if x == c || x in Descendants(c) {
          var s :| s in Subnets(c) && (x == s || x in Descendants(s));
          assert s in SubnetsOf(cs);
        } else {
          var s :| s in SubnetsOf(rest) && (x == s || x in Descendants(s));
          assert s in SubnetsOf(cs);
        }
      }
    }
  }

  /**
    No address is left out of the report: in a well-formed tree every leaf
    is a leaf of some reported subnet.
   */
  lemma {:induction false} LeafsReported(t: Tree)
    requires WellFormed(t)
    ensures forall x :: x in Leafs(t) ==> exists s :: s in Subnets(t) && x in Leafs(s)
    decreases t, 0
  {
    match t.children
    case Absent =>
    case Present(cs) =>
      if HasHostChild(t) {
        assert Subnets(t) == [t];
      } else {
        forall i | 0 <= i < |cs|
          ensures cs[i].children.Present?
        {
          assert ChildFits(cs[i], t.prefix);
        }
        LeafsOfReported(cs);
      }
  }

  lemma {:induction false} LeafsOfReported(cs: seq<Tree>)
    requires forall i :: 0 <= i < |cs| ==> cs[i].children.Present? && WellFormed(cs[i])
    ensures forall x :: x in LeafsOf(cs) ==> exists s :: s in SubnetsOf(cs) && x in Leafs(s)
    decreases cs, 0
  {
    if |cs| > 0 {
      var c, rest := cs[0], cs[1..];
      LeafsReported(c);
      LeafsOfReported(rest);
      assert LeafsOf(cs) == Leafs(c) + LeafsOf(rest);
      assert SubnetsOf(cs) == Subnets(c) + SubnetsOf(rest);
      forall x | x in LeafsOf(cs)
        ensures exists s :: s in SubnetsOf(cs) && x in Leafs(s)
      {
        if x in Leafs(c) {
          var s :| s in Subnets(c) && x in Leafs(s);
          assert s in SubnetsOf(cs);
        } else {
          var s :| s in SubnetsOf(rest) && x in Leafs(s);
          assert s in SubnetsOf(cs);
        }
      }
    }
  }

  /** `Display for Prefix` applied to each node of a list. */
  function RenderAll(s: seq<Tree>): seq<Dotted>
  {
    seq(|s|, i requires 0 <= i < |s| => Render(s[i].prefix))
  }

  /**
    The map `get_subnets_map` builds from a list of subnets: each subnet's
    printed prefix is bound to its printed leaves, inserted in list order so
    that a later subnet with the same printed prefix replaces an earlier one.
   */
  function SubnetsMapOf(ss: seq<Tree>): map<Dotted, seq<Dotted>>
  {
    if |ss| == 0 then map[]
    else SubnetsMapOf(ss[..|ss| - 1])[Render(ss[|ss| - 1].prefix) := RenderAll(Leafs(ss[|ss| - 1]))]
  }

  /** `get_subnets_map`: the insertion loop over `get_subnets`. */
  method SubnetsMap(t: Tree) returns (m: map<Dotted, seq<Dotted>>)
    ensures m == SubnetsMapOf(Subnets(t))
  {
    var subnets := Subnets(t);
    m := map[];
    for i := 0 to |subnets|
      invariant m == SubnetsMapOf(subnets[..i])
    {
      var s := subnets[i];
      assert subnets[..i + 1][..i] == subnets[..i];
      m := m[Render(s.prefix) := RenderAll(Leafs(s))];
    }
    assert subnets[..|subnets|] == subnets;
  }

  /** The keys of the map are exactly the printed prefixes of the subnets. */
  lemma {:induction false} SubnetsMapKeys(ss: seq<Tree>)
    ensures forall k :: k in SubnetsMapOf(ss) <==> exists j :: 0 <= j < |ss| && Render(ss[j].prefix) == k
  {
    if |ss| > 0 {
      var init := ss[..|ss| - 1];
      SubnetsMapKeys(init);
      forall k
        ensures k in SubnetsMapOf(ss) <==> exists j :: 0 <= j < |ss| && Render(ss[j].prefix) == k
      {
        if k in SubnetsMapOf(init) {
          var j :| 0 <= j < |init| && Render(init[j].prefix) == k;
          assert ss[j] == init[j];
        }
        if exists j :: 0 <= j < |ss| && Render(ss[j].prefix) == k {
          var j :| 0 <= j < |ss| && Render(ss[j].prefix) == k;
          if j < |init| {
            assert init[j] == ss[j];
          }
        }
      }
    }
  }

  /**
    A subnet that no later subnet shares a printed prefix with is bound to
    its own printed leaves.
   */
  lemma {:induction false} SubnetsMapLastWins(ss: seq<Tree>, j: nat)
    requires j < |ss|
    requires forall j' :: j < j' < |ss| ==> Render(ss[j'].prefix) != Render(ss[j].prefix)
    ensures Render(ss[j].prefix) in SubnetsMapOf(ss)
    ensures SubnetsMapOf(ss)[Render(ss[j].prefix)] == RenderAll(Leafs(ss[j]))
  {
    if j < |ss| - 1 {
      var init := ss[..|ss| - 1];
      assert init[j] == ss[j];
      SubnetsMapLastWins(init, j);
    }
  }

  /** The prefixes `get_leafs` reports, as a set. */
  function LeafSet(t: Tree): set<Prefix>
  {
    Support(PrefixBag(Leafs(t)))
  }

  function Support(m: multiset<Prefix>): set<Prefix>
  {
    set x | x in m
  }

  /** The /32s of a list of addresses. */
  function Hosts(addrs: seq<Addr>): set<Prefix>
  {
    set a | a in addrs :: FromAddr(a)
  }

  lemma AddsLeafSupport(before: multiset<Prefix>, after: multiset<Prefix>, x: Prefix)
    requires AddsLeaf(before, after, x)
    ensures Support(after) == Support(before) + {x}
  {
    assert forall y :: y in Support(after) <==> y in after;
  }

  lemma HostsLast(addrs: seq<Addr>)
    requires |addrs| > 0
    ensures Hosts(addrs) == Hosts(addrs[..|addrs| - 1]) + {FromAddr(addrs[|addrs| - 1])}
  {
    var init, a := addrs[..|addrs| - 1], addrs[|addrs| - 1];
    assert addrs == init + [a];
    assert forall b :: b in addrs <==> b in init || b == a;
  }

  /** Pushing an address the node holds adds its /32 to the leaf set and removes nothing. */
  lemma PushLeafSet(t: Tree, a: Addr)
    requires WellFormed(t) && Contains(t.prefix, a)
    ensures Push(t, a).Ok?
    ensures LeafSet(Push(t, a).value) == LeafSet(t) + {FromAddr(a)}
  {
    PushKeepsLeaves(t, a);
    AddsLeafSupport(PrefixBag(Leafs(t)), PrefixBag(Leafs(Push(t, a).value)), FromAddr(a));
  }

  /**
    The loop of `find_subnets` over one file's addresses: they are popped off
    the end of the list and pushed in turn, so the last one goes in first.
   */
  function PushAllOf(t: Tree, addrs: seq<Addr>): (r: Tree)
    requires WellFormed(t) && t.prefix == Root()
    ensures WellFormed(r) && r.prefix == Root()
    decreases |addrs|
  {
    if |addrs| == 0 then t
    else
      var a := addrs[|addrs| - 1];
      assert Contains(Root(), a);
      PushWellFormed(t, a);
      PushAllOf(Push(t, a).value, addrs[..|addrs| - 1])
  }

  /**
    `find_subnets` runs the loop once per file on the same tree: pushing one
    file's list and then the next is pushing the second list followed by the
    first, popped from the end as one list.
   */
  lemma {:induction false} PushAllOfConcat(t: Tree, f1: seq<Addr>, f2: seq<Addr>)
    requires WellFormed(t) && t.prefix == Root()
    ensures PushAllOf(PushAllOf(t, f1), f2) == PushAllOf(t, f2 + f1)
    decreases |f1|
  {
    if |f1| == 0 {
      assert f2 + f1 == f2;
    } else {
      var a := f1[|f1| - 1];
      assert Contains(Root(), a);
      PushWellFormed(t, a);
      var t' := Push(t, a).value;
      PushAllOfConcat(t', f1[..|f1| - 1], f2);
      assert (f2 + f1)[..|f2 + f1| - 1] == f2 + f1[..|f1| - 1];
    }
  }

  lemma PushAllOfStep(t: Tree, addrs: seq<Addr>)
    requires WellFormed(t) && t.prefix == Root() && |addrs| > 0
    ensures Push(t, addrs[|addrs| - 1]).Ok?
    ensures WellFormed(Push(t, addrs[|addrs| - 1]).value) && Push(t, addrs[|addrs| - 1]).value.prefix == Root()
    ensures PushAllOf(t, addrs) == PushAllOf(Push(t, addrs[|addrs| - 1]).value, addrs[..|addrs| - 1])
  {
    assert Contains(Root(), addrs[|addrs| - 1]);
    PushWellFormed(t, addrs[|addrs| - 1]);
  }

  /** After the loop, the leaves are the old ones plus the /32 of every address in the list. */
  lemma {:induction false} PushAllLeafSet(t: Tree, addrs: seq<Addr>)
    requires WellFormed(t) && t.prefix == Root()
    ensures LeafSet(PushAllOf(t, addrs)) == LeafSet(t) + Hosts(addrs)
    decreases |addrs|
  {
    if |addrs| == 0 {
      assert Hosts(addrs) == {};
    } else {
      var a, init := addrs[|addrs| - 1], addrs[..|addrs| - 1];
      assert Contains(Root(), a);
      PushLeafSet(t, a);
      PushAllOfStep(t, addrs);
      var t' := Push(t, a).value;
      PushAllLeafSet(t', init);
      HostsLast(addrs);
      UnionRegroup(LeafSet(t), FromAddr(a), Hosts(init));
    }
  }

  lemma UnionRegroup<T>(s: set<T>, x: T, h: set<T>)
    ensures (s + {x}) + h == s + (h + {x})
  {
  }

  /**
    The subnets of a well-formed tree print pairwise differently, so no
    insert of `get_subnets_map` overwrites another subnet's entry.
   */
  lemma SubnetsRenderApart(t: Tree)
    requires WellFormed(t)
    ensures forall i, j :: 0 <= i < j < |Subnets(t)| ==> Render(Subnets(t)[i].prefix) != Render(Subnets(t)[j].prefix)
  {
    var ss := Subnets(t);
    SubnetsSeparate(t);
    SubnetsInside(t);
    forall i, j | 0 <= i < j < |ss|
      ensures Render(ss[i].prefix) != Render(ss[j].prefix)
    {
      assert ss[i] in ss && ss[j] in ss;
      RenderInjective(ss[i].prefix, ss[j].prefix);
    }
  }

  /** A well-formed node with a child list has at least one leaf below it. */
  lemma {:induction false} LeafsNonEmpty(t: Tree)
    requires WellFormed(t) && t.children.Present?
    ensures |Leafs(t)| > 0
    decreases t
  {
    var c := t.children.nodes[0];
    assert LeafsOf(t.children.nodes) == LeafsFrom(c) + LeafsOf(t.children.nodes[1..]);
    if c.children.Present? {
      LeafsNonEmpty(c);
    }
  }

  /** Every subnet `get_subnets` reports from a well-formed tree holds at least one leaf. */
  lemma SubnetsHaveLeaves(t: Tree)
    requires WellFormed(t)
    ensures forall s :: s in Subnets(t) ==> |Leafs(s)| > 0
  {
    SubnetsHaveHosts(t);
    SubnetsInside(t);
    forall s | s in Subnets(t)
      ensures |Leafs(s)| > 0
    {
      LeafsNonEmpty(s);
    }
  }

  /** Every entry of `get_subnets_map` on a well-formed tree lists at least one address. */
  lemma SubnetsMapFilled(t: Tree)
    requires WellFormed(t)
    ensures forall k :: k in SubnetsMapOf(Subnets(t)) ==> |SubnetsMapOf(Subnets(t))[k]| > 0
  {
    var ss := Subnets(t);
    SubnetsMapKeys(ss);
    SubnetsRenderApart(t);
    SubnetsHaveLeaves(t);
    forall k | k in SubnetsMapOf(ss)
      ensures |SubnetsMapOf(ss)[k]| > 0
    {
      var j :| 0 <= j < |ss| && Render(ss[j].prefix) == k;
      SubnetsMapLastWins(ss, j);
      assert ss[j] in ss;
    }
  }

  /** Every leaf of a reported subnet is listed, printed, under that subnet's key of `get_subnets_map`. */
  lemma LeafInMap(t: Tree, s: Tree, x: Tree)
    requires WellFormed(t) && s in Subnets(t) && x in Leafs(s)
    ensures Render(s.prefix) in SubnetsMapOf(Subnets(t))
    ensures Render(x.prefix) in SubnetsMapOf(Subnets(t))[Render(s.prefix)]
  {
    var ss := Subnets(t);
    var j :| 0 <= j < |ss| && ss[j] == s;
    SubnetsRenderApart(t);
    SubnetsMapLastWins(ss, j);
    var m :| 0 <= m < |Leafs(s)| && Leafs(s)[m] == x;
    assert RenderAll(Leafs(s))[m] == Render(x.prefix);
  }

  /**
    No address is lost: after the addresses are pushed into a new tree, each
    one sits as a /32 leaf under some subnet that `get_subnets` reports, and
    the map `get_subnets_map` returns lists it under that subnet.
   */
  lemma EveryAddressReported(addrs: seq<Addr>, a: Addr)
    requires a in addrs
    ensures exists s, x :: s in Subnets(PushAllOf(New(), addrs)) && x in Leafs(s) && x.prefix == FromAddr(a)
    ensures exists k :: (k in SubnetsMapOf(Subnets(PushAllOf(New(), addrs))) &&
      Render(FromAddr(a)) in SubnetsMapOf(Subnets(PushAllOf(New(), addrs)))[k])
  {
    var t := PushAllOf(New(), addrs);
    PushAllLeafSet(New(), addrs);
    assert LeafSet(New()) == {};
    assert FromAddr(a) in Hosts(addrs);
    var ls := Leafs(t);
    assert FromAddr(a) in PrefixList(ls);
    var i :| 0 <= i < |ls| && ls[i].prefix == FromAddr(a);
    LeafsReported(t);
    assert ls[i] in Leafs(t);
    var s :| s in Subnets(t) && ls[i] in Leafs(s);
    LeafInMap(t, s, ls[i]);
  }

  /** A list of addresses in which no address occurs twice. */
  predicate NoDuplicates(addrs: seq<Addr>)
  {
    forall i, j :: 0 <= i < j < |addrs| ==> addrs[i] != addrs[j]
  }

  /** The /32s of a list of addresses, in order. */
  function HostList(addrs: seq<Addr>): seq<Prefix>
  {
    seq(|addrs|, i requires 0 <= i < |addrs| => FromAddr(addrs[i]))
  }

  lemma NoDuplicatesInit(addrs: seq<Addr>)
    requires NoDuplicates(addrs) && |addrs| > 0
    ensures NoDuplicates(addrs[..|addrs| - 1])
  {
    var init := addrs[..|addrs| - 1];
    forall i, j | 0 <= i < j < |init|
      ensures init[i] != init[j]
    {
      assert init[i] == addrs[i] && init[j] == addrs[j];
    }
  }

  lemma HostListLast(addrs: seq<Addr>)
    requires |addrs| > 0
    ensures HostList(addrs) == HostList(addrs[..|addrs| - 1]) + [FromAddr(addrs[|addrs| - 1])]
  {
  }

  /** Adding the last address's /32 leaves the earlier, different, ones absent. */
  lemma FreshAfterPush(before: multiset<Prefix>, after: multiset<Prefix>, addrs: seq<Addr>)
    requires NoDuplicates(addrs) && |addrs| > 0
    requires forall i :: 0 <= i < |addrs| ==> FromAddr(addrs[i]) !in before
    requires after == before + multiset{FromAddr(addrs[|addrs| - 1])}
    ensures forall i :: 0 <= i < |addrs| - 1 ==> FromAddr(addrs[i]) !in after
  {
    forall i | 0 <= i < |addrs| - 1
      ensures FromAddr(addrs[i]) !in after
    {
      assert FromAddr(addrs[i]).bean != FromAddr(addrs[|addrs| - 1]).bean;
    }
  }

  /** The popped address is new to the tree, so its push adds exactly its /32 as a leaf. */
  lemma PushFresh(t: Tree, addrs: seq<Addr>) returns (t': Tree)
    requires WellFormed(t) && t.prefix == Root() && NoDuplicates(addrs) && |addrs| > 0
    requires forall i :: 0 <= i < |addrs| ==> FromAddr(addrs[i]) !in PrefixBag(Leafs(t))
    ensures t' == Push(t, addrs[|addrs| - 1]).value && WellFormed(t') && t'.prefix == Root()
    ensures PushAllOf(t, addrs) == PushAllOf(t', addrs[..|addrs| - 1])
    ensures PrefixBag(Leafs(t')) == PrefixBag(Leafs(t)) + multiset{FromAddr(addrs[|addrs| - 1])}
    ensures forall i :: 0 <= i < |addrs| - 1 ==> FromAddr(addrs[i]) !in PrefixBag(Leafs(t'))
  {
    var a := addrs[|addrs| - 1];
    assert Contains(Root(), a);
    assert FromAddr(a) !in PrefixBag(Leafs(t));
    PushKeepsLeaves(t, a);
    PushAllOfStep(t, addrs);
    t' := Push(t, a).value;
    FreshAfterPush(PrefixBag(Leafs(t)), PrefixBag(Leafs(t')), addrs);
  }

  lemma BagStep(before: multiset<Prefix>, mid: multiset<Prefix>, after: multiset<Prefix>, rest: seq<Prefix>, x: Prefix)
    requires mid == before + multiset{x} && after == mid + multiset(rest)
    ensures after == before + multiset(rest + [x])
  {
  }

  /**
    Pushing addresses that occur once each and are not leaves yet adds each
    of them as exactly one new leaf.
   */
  lemma {:induction false} PushAllLeafBag(t: Tree, addrs: seq<Addr>)
    requires WellFormed(t) && t.prefix == Root() && NoDuplicates(addrs)
    requires forall i :: 0 <= i < |addrs| ==> FromAddr(addrs[i]) !in PrefixBag(Leafs(t))
    ensures PrefixBag(Leafs(PushAllOf(t, addrs))) == PrefixBag(Leafs(t)) + multiset(HostList(addrs))
    decreases |addrs|
  {
    if |addrs| == 0 {
      assert HostList(addrs) == [];
    } else {
      var a, init := addrs[|addrs| - 1], addrs[..|addrs| - 1];
      var t' := PushFresh(t, addrs);
      NoDuplicatesInit(addrs);
      PushAllLeafBag(t', init);
      HostListLast(addrs);
      BagStep(PrefixBag(Leafs(t)), PrefixBag(Leafs(t')), PrefixBag(Leafs(PushAllOf(t', init))), HostList(init), FromAddr(a));
    }
  }

  /**
    When no address occurs twice, the leaves of the tree `find_subnets`
    builds hold the /32 of each address exactly once, and nothing else.
   */
  lemma EveryAddressOnce(addrs: seq<Addr>)
    requires NoDuplicates(addrs)
    ensures PrefixBag(Leafs(PushAllOf(New(), addrs))) == multiset(HostList(addrs))
  {
    assert PrefixBag(Leafs(New())) == multiset{};
    PushAllLeafBag(New(), addrs);
  }
}
