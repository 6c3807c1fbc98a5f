/**
  Concrete runs of `push` from an empty tree, showing the shapes the pass
  produces and what `get_subnets` and `get_leafs` then report.
 */
module TreeScenarios {
  import opened Wrappers
  import opened Prefixes
  import opened Trees

  /**
    One address in an empty tree becomes the root's only child, so the root
    itself, 0.0.0.0/0, is the subnet reported for it.
   */
  lemma SingleAddressUnderRoot(a: Addr)
    ensures Push(New(), a).Ok?
    ensures Push(New(), a).value == Tree(Root(), Present([Of(a)]))
    ensures Subnets(Push(New(), a).value) == [Push(New(), a).value]
    ensures Leafs(Push(New(), a).value) == [Of(a)]
  {
    PushNewAccepts(a);
    var t := Push(New(), a).value;
    assert t.children.nodes[0].prefix.maskLen == 32;
    OneLeaf(a);
  }

  /**
    Pushing the same address twice nests it: the first leaf gains a child
    list holding a second /32 for the same address, and the leaves are
    still that one address.
   */
  lemma DuplicateNests(a: Addr)
    ensures Push(New(), a).Ok? && WellFormed(Push(New(), a).value)
    ensures Push(Push(New(), a).value, a)
         == Ok(Tree(Root(), Present([Tree(FromAddr(a), Present([Of(a)]))])))
    ensures Leafs(Push(Push(New(), a).value, a).value) == [Of(a)]
  {
    PushNewAccepts(a);
    PushWellFormed(New(), a);
    var t := Push(New(), a).value;
    assert Contains(Root(), a);
    FromAddrContains(a, a);
    assert t.children.nodes == [Of(a)];
    assert Push(Of(a), a) == Ok(Tree(FromAddr(a), Present([Of(a)])));
    assert PushChildren([Of(a)], a, Root()) == [Tree(FromAddr(a), Present([Of(a)]))];
    OneLeaf(a);
    var n := Tree(FromAddr(a), Present([Of(a)]));
    assert LeafsOf([n]) == LeafsFrom(n) + LeafsOf([n][1..]);
  }

  /** 10.1.2.0/29, the closest common prefix of 10.1.2.3 and 10.1.2.4. */
  function Slash29(): Prefix
  {
    Prefix(0x0A01_0200, 29, 0xFFFF_FFF8)
  }

  /**
    10.1.2.3 then 10.1.2.4: the first leaf steps down under 10.1.2.0/29 with
    the second as its sibling, and that /29 is the one subnet reported.
   */
  lemma NeighboursMerge()
    ensures Push(New(), 0x0A01_0203).Ok? && WellFormed(Push(New(), 0x0A01_0203).value)
    ensures Push(Push(New(), 0x0A01_0203).value, 0x0A01_0204)
         == Ok(Tree(Root(), Present([Tree(Slash29(), Present([Of(0x0A01_0203), Of(0x0A01_0204)]))])))
    ensures Subnets(Push(Push(New(), 0x0A01_0203).value, 0x0A01_0204).value)
         == [Tree(Slash29(), Present([Of(0x0A01_0203), Of(0x0A01_0204)]))]
  {
    var a, b := 0x0A01_0203, 0x0A01_0204;
    PushNewAccepts(a);
    PushWellFormed(New(), a);
    assert Contains(Root(), b);
    FromAddrContains(a, b);
    CommonOfNeighbours();
    var n := Tree(Slash29(), Present([Of(a), Of(b)]));
    assert PushChildren([Of(a)], b, Root()) == [n];
    assert n.children.nodes[0].prefix.maskLen == 32;
    var t := Tree(Root(), Present([n]));
    assert !HasHostChild(t);
    assert SubnetsOf([n]) == Subnets(n) + SubnetsOf([n][1..]);
  }

  /** `common_of` of the two /32s with the bound `push` uses directly under the root. */
  lemma CommonOfNeighbours()
    ensures Common(FromAddr(0x0A01_0203), FromAddr(0x0A01_0204), Some(1)) == Some(Slash29())
  {
    assert Mask(29) == 0xFFFF_FFF8;
    ClosestLands(0x0A01_0203, 0x0A01_0204, 32, 29, 1);
  }

  /**
    10.128.0.5 then 10.0.2.9: the two share only their first octet, and the
    pass still merges them, under 10.0.0.0/8, as the one reported subnet;
    the bound of `common_of` below the root is 1, not a length that would
    keep them apart.
   */
  lemma DistantAddressesMerge()
    ensures Push(New(), 0x0A80_0005).Ok? && WellFormed(Push(New(), 0x0A80_0005).value)
    ensures Push(Push(New(), 0x0A80_0005).value, 0x0A00_0209)
         == Ok(Tree(Root(), Present([Tree(Prefix(0x0A00_0000, 8, Mask(8)), Present([Of(0x0A80_0005), Of(0x0A00_0209)]))])))
    ensures Subnets(Push(Push(New(), 0x0A80_0005).value, 0x0A00_0209).value)
         == [Tree(Prefix(0x0A00_0000, 8, Mask(8)), Present([Of(0x0A80_0005), Of(0x0A00_0209)]))]
  {
    var a, b := 0x0A80_0005, 0x0A00_0209;
    PushNewAccepts(a);
    PushWellFormed(New(), a);
    assert Contains(Root(), b);
    FromAddrContains(a, b);
    MaskValues();
    assert Mask(9) == 0xFF80_0000;
    ClosestLands(a, b, 32, 8, 1);
    assert Common(FromAddr(a), FromAddr(b), Some(1)) == Some(Prefix(0x0A00_0000, 8, Mask(8)));
    var n := Tree(Prefix(0x0A00_0000, 8, Mask(8)), Present([Of(a), Of(b)]));
    assert PushChildren([Of(a)], b, Root()) == [n];
    assert n.children.nodes[0].prefix.maskLen == 32;
    var t := Tree(Root(), Present([n]));
    assert !HasHostChild(t);
    assert SubnetsOf([n]) == Subnets(n) + SubnetsOf([n][1..]);
  }
}
