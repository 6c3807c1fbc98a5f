# ipv4-classify prefix trie, in Dafny

ipv4-classify reads lists of IPv4 addresses and groups them into subnets. Its
core is in `src/lib.rs`, and this project models it:

- `Prefix` is a base address (`bean`), a mask length and the mask. It offers
  `root`, `contains`, `from_addr`, `common_of` (the closest common prefix of
  two prefixes, with a lower bound on its length) and its dotted-quad
  `Display`.
- `AddressTree` is a prefix trie. Each node owns its prefix and an optional
  vector of child nodes.
  - `push` places an address in the trie in a single pass over the children.
    At each child in turn, the child is offered the address. If it refuses,
    `common_of` looks for a prefix the child and the address share below the
    parent, and the child steps down under it (`stepdown`). The first child
    that does either ends the pass. When none does, the address is appended
    as a new leaf.
  - `get_subnets`, `get_leafs` and `get_subnets_map` then report the topmost
    nodes that have a /32 child, each with the leaves below it.

The project has five modules:

- `Prefixes` (`prefix.dfy`) models `Prefix`.
  - Addresses and masks are `bv32`, so `contains`, the masks and the octet
    extraction of `Display` keep the source's bit operations.
  - `Common` is the value `common_of` returns. `CommonOf` is its loop, proved
    against `Common`.
  - The lemmas show what `common_of` promises: the result holds both inputs,
    it is the closest such prefix, it is symmetric, and it is `None` exactly
    when the inputs differ under the bound. The expectations of `src/test.rs`
    are proved as lemmas.
- `Trees` (`trees.dfy`) models the trie as a value.
  - `Push` is `push`, and `PushChildren` / `PlaceAt` are its pass over the
    children. `Leafs`, `Subnets` and `SubnetsMap` are the three traversals.
  - The lemmas prove the following:
    - `push` keeps the trie well formed: canonical prefixes, child lists
      never empty, each child inside its parent and strictly longer than it
      unless the parent is a /32 (an address pushed again nests under its own
      /32), siblings in different halves of their parent, childless nodes
      below the root are /32s.
    - The panic of `common_of` can never be reached from `push`.
    - `push` adds the pushed address as a leaf and loses none.
    - `get_leafs` returns exactly the childless descendants.
    - The reported subnets are pairwise disjoint, none lies below another
      (the chop of `get_subnets`), and every node with a /32 child is a
      reported subnet or lies below one.
    - Every leaf is reported under some subnet, every reported subnet holds
      a leaf, and the subnets print pairwise differently, so no entry of
      `get_subnets_map` is overwritten and none is empty.
    - After the loop of `find_subnets` over one file's list, every address
      read is reported, and when no address repeats, each is a leaf exactly
      once. The loops over several files are one loop over their lists
      joined.
- `AddressTrees` (`address_tree.dfy`) is `AddressTree` as the source keeps it.
  - It is a class whose `push` restructures the nodes in place, with a ghost
    `Model` (the `Trees.Tree` it stands for) and a ghost `Repr` (the nodes it
    owns).
  - Every method, the loop over the children included, is proved against
    `Trees`.
  - `PushEach` is the `while let Some(addr) = addrs.pop()` loop of
    `find_subnets`.
- `TreeScenarios` (`scenarios.dfy`) holds concrete runs of `push`.
- `Wrappers` (`wrappers.dfy`) holds `Option` and `Result`.

Three behaviours of the code are worth knowing:

- `push` makes one pass over the children. At each child it first offers
  the address and, if the child refuses, tries a merge, before moving on to
  the next child (`Trees.PlaceAt`, `Trees.PassSkips`, `Trees.PassPlaces`).
- A single address is not reported as its own /32 subnet. The root,
  0.0.0.0/0, is the subnet holding it
  (`TreeScenarios.SingleAddressUnderRoot`).
- Under the root, the merge bound is 1, so 10.128.0.5 and 10.0.2.9 step down
  under 10.0.0.0/8 (`TreeScenarios.DistantAddressesMerge`).

## Model

| member | source | states |
|---|---|---|
| Prefixes.Root | src/lib.rs:103-109 | the root prefix is canonical and contains every address |
| Prefixes.Mask | src/lib.rs:150-159 | computes the mask of a length as the source builds it, all ones shifted left once per bit shorter; `MaskMatchesSource`, `MaskStep` and `MaskGrows` carry its contract |
| Prefixes.Contains | src/lib.rs:112-115 | computes `addr & mask == bean`; `ContainsIsAgree` and `FromAddrContains` carry its contract |
| Prefixes.FromAddr | src/lib.rs:124-130 | `from_addr` gives a canonical /32 whose base is the address |
| Prefixes.FromAddrContains | src/lib.rs:112-130 | the /32 of `a` contains an address if and only if it is `a` |
| Prefixes.ContainsIsAgree | src/lib.rs:112-115 | a canonical prefix contains an address exactly when the two agree on the prefix's top bits |
| Prefixes.MaskStep | src/lib.rs:159-160 | one bit shorter is the mask shifted left once, the step of the loop |
| Prefixes.MaskValues | src/lib.rs:103-109 | the masks at the octet boundaries, and the empty mask of length 0 that the root uses |
| Prefixes.MaskMatchesSource | src/lib.rs:150 | for lengths 1 to 32, `u32::MAX << (32 - len)` does not overflow and equals the model's mask |
| Prefixes.ShiftedAllOnes | src/lib.rs:150 | computes `u32::MAX << amount`, `None` when the shift overflows; `Prefixes.MaskMatchesSource`, `Prefixes.ShiftedAllOnesBits` and `Prefixes.ShiftedAllOnesOverflowsForRoot` carry its contract |
| Prefixes.ShiftedAllOnesBits | src/lib.rs:150 | `u32::MAX << k` has exactly the bits from `k` up set |
| Prefixes.ShiftedAllOnesOverflowsForRoot | src/lib.rs:146-150 | for a shorter length of 0, the shift of line 150 is by the full width and overflows |
| Prefixes.Closest | src/lib.rs:151-161 | the loop's search ends at a length between the bound and its start, or fails |
| Prefixes.ClosestAgrees | src/lib.rs:152-157 | the search stops only at a length where the two bases agree |
| Prefixes.ClosestMaximal | src/lib.rs:151-161 | the bases disagree at every length the search went past |
| Prefixes.Common | src/lib.rs:140-163 | computes the value `common_of` returns, from the search `Closest`; `CommonFound`, `CommonMaximal`, `CommonNoneIff`, `CommonSymmetric` and `CommonOf` carry its contract |
| Prefixes.CommonOf | src/lib.rs:140-163 | the shrinking-mask loop returns exactly the closest common prefix `Common`, under the no-panic precondition of lines 147-149 |
| Prefixes.CommonFound | src/lib.rs:132-137 | a `Some` result is no shorter than the bound and no longer than the shorter input, canonical, and contains both bases |
| Prefixes.CommonMaximal | src/lib.rs:132-134 | a `Some` result is the closest: the bases disagree at every longer length up to the shorter input |
| Prefixes.CommonStopsAt | src/lib.rs:152-157 | the first length, going down, at which the bases agree is the one returned |
| Prefixes.CommonSymmetric | src/lib.rs:140-163 | `common_of(p1, p2, m) == common_of(p2, p1, m)` |
| Prefixes.CommonNoneIff | src/lib.rs:135-137 | `None` exactly when the bases differ under the bound's mask; with no bound the result is always `Some` |
| Prefixes.CommonContainsBoth | src/lib.rs:132-134 | the result contains both input prefixes as subnets |
| Prefixes.CommonSelf | src/lib.rs:140-163 | a canonical prefix, the root included, is its own closest common prefix |
| Prefixes.ReleaseSearch | src/lib.rs:150-161 | computes the loop as a release build runs it, with the `u8` length wrapping below 0 and the shift amount taken modulo 32; `Prefixes.LengthWrapsForRoot` carries its contract |
| Prefixes.LengthWrapsForRoot | src/lib.rs:150-161 | in a release build, the root and 1.0.0.0 with no bound start from the all-ones mask, the length wraps below 0, and the loop stops at length 231 with mask 0xFE00_0000 |
| Prefixes.CommonWithRoot | src/lib.rs:132-137 | the root and any single address have the root, 0.0.0.0/0, as their closest common prefix |
| Prefixes.CommonShorter | src/lib.rs:217-221 | the common prefix of a child and an address it refuses is strictly shorter than the child |
| Prefixes.CommonSplits | src/lib.rs:217-227 | the child and the address then differ at the bit just below the common prefix, so the stepdown's two children lie in different halves |
| Prefixes.InsideAgrees | src/lib.rs:112-115 | a prefix inside a canonical prefix agrees with its base on every length up to the outer one's |
| Prefixes.WithinMissesIsLonger | src/lib.rs:217-221 | a child that refuses an address of its parent is strictly longer than the parent, so the bound `mask_len + 1` never exceeds it and the panic cannot occur |
| Prefixes.CommonOfTwoAddresses | src/test.rs:86-91 | 10.1.2.3/32 and 10.1.2.4/32 give 10.1.2.0/29 |
| Prefixes.CommonOfTwoSubnets | src/test.rs:94-99 | 10.1.2.0/24 and 10.1.2.192/26 give 10.1.2.0/24 |
| Prefixes.CommonOfExtendingPrefix | src/test.rs:102-107 | 10.128.0.0/24 and 10.0.2.0/24 give 10.0.0.0/8 |
| Prefixes.CommonOfOutsideLimit | src/test.rs:110-114 | the same two /24s with bound 16 give `None` |
| Prefixes.Render | src/lib.rs:166-177 | computes the four octets and the length that `Display` prints; `RenderOctets` and `RenderInjective` carry its contract |
| Prefixes.RenderOctets | src/lib.rs:166-177 | the four printed octets, most significant first, reassemble into the base, and the printed length is the mask length |
| Prefixes.RenderInjective | src/lib.rs:166-177 | two canonical prefixes print the same if and only if they are equal |
| Trees.New | src/lib.rs:187-192 | the new tree is well formed |
| Trees.Of | src/lib.rs:195-200 | computes the childless node of an address's /32; `Trees.PassEnds` and `Trees.StepdownFits` state what it adds to a tree |
| Trees.Stepdown | src/lib.rs:255-269 | computes the node with the new prefix whose children are the old node then the neighbour; `Trees.StepdownFits` and `Trees.StepdownLeaves` carry its contract |
| Trees.Push | src/lib.rs:206-253 | computes the value result of `push`; `Trees.PushRefusesOutside`, `Trees.PushWellFormed`, `Trees.PushKeepsLeaves` and `Trees.PushLeafSet` carry its contract |
| Trees.PushChildren | src/lib.rs:209-241 | computes the child list after the pass; `Trees.PassSkips`, `Trees.PassPlaces`, `Trees.PassEnds`, `Trees.PushChildrenFit` and `Trees.PushChildrenApart` carry its contract |
| Trees.PlaceAt | src/lib.rs:213-233 | computes one turn of the pass at one child: taken, merged or passed; `Trees.PlaceTakes`, `Trees.PlaceMerges` and `Trees.PlacePasses` carry its contract |
| Trees.PushNewAccepts | src/lib.rs:206-208 | a tree from `new` accepts every address |
| Trees.PushRefusesOutside | src/lib.rs:206-208 | `push` returns `Err(a)` if and only if the node's prefix misses `a`, and otherwise keeps the node's prefix |
| Trees.PushEntersChildren | src/lib.rs:208-242 | unfolds `Push` in the case of a node holding `a` with a child list: `Ok` with the list the pass produces |
| Trees.PlaceTakes | src/lib.rs:213-214 | unfolds `PlaceAt` in the case of a child that holds `a`: it takes it through its own `push` |
| Trees.PlaceMerges | src/lib.rs:215-229 | unfolds `PlaceAt` in the case of a refusing child with a common prefix under the bound: it is replaced by its stepdown, with the new leaf as sibling |
| Trees.PlacePasses | src/lib.rs:230 | unfolds `PlaceAt` in the case of a refusing child without such a common prefix: the address passes |
| Trees.PassSkips | src/lib.rs:230-236 | a child that lets the address pass moves the pass on to the next child, leaving it unchanged |
| Trees.PassPlaces | src/lib.rs:234-236 | the first child that takes or merges is replaced, and no other child changes |
| Trees.PassEnds | src/lib.rs:238-241 | when the pass goes past every child, `a` is appended as the last child |
| Trees.PushWellFormed | src/lib.rs:206-253 | `push` keeps the tree well formed: canonical prefixes, child lists never empty, children inside their parent and strictly longer unless the parent is a /32 (an address pushed again), siblings in different halves of it, childless nodes below the root are /32s |
| Trees.PushChildrenFit | src/lib.rs:209-241 | after the pass every child still lies inside the parent and is well formed |
| Trees.PlacedFits | src/lib.rs:213-229 | whatever a turn puts in place of a child still fits under the parent |
| Trees.StepdownFits | src/lib.rs:217-228 | the node built by a stepdown lies inside the parent, with both the old child and the new leaf strictly inside it and in different halves of it |
| Trees.PushChildrenApart | src/lib.rs:209-241 | after the pass the children still lie in pairwise different halves of the parent |
| Trees.PlacedHalf | src/lib.rs:213-229 | whatever a turn puts in place of a child lies in the same half of the parent as that child |
| Trees.RefusedSplits | src/lib.rs:215-230 | a child that lets the address pass lies in the other half of the parent from it, so the appended leaf keeps siblings apart |
| Trees.StepdownLeaves | src/lib.rs:255-269 | after a stepdown, the leaves are the old ones plus the neighbour |
| Trees.PushKeepsLeaves | src/lib.rs:206-253 | `push` loses no leaf. It adds the address as exactly one new leaf, unless that address was already a leaf and was only re-nested |
| Trees.PushLeafSet | src/lib.rs:206-253 | for an address the node holds, `push` succeeds and the set of leaf prefixes gains exactly its /32 |
| Trees.Leafs | src/lib.rs:287-299 | computes `get_leafs`; `Trees.LeafsAreChildlessDescendants` carries its contract |
| Trees.LeafsOf | src/lib.rs:290-296 | computes the loop of `get_leafs` over a child list; `Trees.LeafsAreChildlessDescendants` carries its contract |
| Trees.LeafsFrom | src/lib.rs:291-295 | computes one child's share: itself when childless, else its leaves; `Trees.LeafsAreChildlessDescendants` carries its contract |
| Trees.LeafsAreChildlessDescendants | src/lib.rs:287-299 | `get_leafs` returns exactly the childless descendants, in depth-first order |
| Trees.Subnets | src/lib.rs:271-285 | computes `get_subnets`; `Trees.SubnetsHaveHosts`, `Trees.SubnetsChop`, `Trees.HostNodesReported` and `Trees.SubnetsSeparate` carry its contract |
| Trees.SubnetsOf | src/lib.rs:279-281 | computes the loop of `get_subnets` over a child list; the lemmas about `Trees.Subnets` carry its contract |
| Trees.SubnetsHaveHosts | src/lib.rs:271-285 | every reported subnet has a /32 child and is the tree or one of its descendants |
| Trees.SubnetsChop | src/lib.rs:275-277 | in a well-formed tree, no reported subnet lies below another reported subnet: the walk stops at a node with a /32 child |
| Trees.HostNodesReported | src/lib.rs:274-282 | every node with a /32 child is a reported subnet or lies below one |
| Trees.DescendantsInside | src/lib.rs:179-183 | every node below a well-formed tree is well formed and lies inside the tree's prefix |
| Trees.SubnetsInside | src/lib.rs:271-285 | every reported subnet is well formed and lies inside the tree's prefix |
| Trees.SubnetsSeparate | src/lib.rs:271-285 | the reported subnets of a well-formed tree are pairwise disjoint: no two share an address |
| Trees.LeafsReported | src/lib.rs:271-299 | in a well-formed tree, every leaf is a leaf of some reported subnet |
| Trees.LeafsNonEmpty | src/lib.rs:287-299 | a well-formed node with a child list has at least one leaf below it |
| Trees.SubnetsHaveLeaves | src/lib.rs:271 | every subnet reported from a well-formed tree contains at least one leaf |
| Trees.SubnetsMapOf | src/lib.rs:302-316 | computes the map the inserts build, in order; `Trees.SubnetsMap`, `Trees.SubnetsMapKeys` and `Trees.SubnetsMapLastWins` carry its contract |
| Trees.SubnetsMap | src/lib.rs:302-316 | the insertion loop builds the map `SubnetsMapOf(get_subnets())` |
| Trees.SubnetsMapKeys | src/lib.rs:302-316 | the keys of the map are exactly the printed prefixes of the subnets |
| Trees.SubnetsMapLastWins | src/lib.rs:306-314 | a subnet whose printed prefix no later subnet repeats is bound to its printed leaves |
| Trees.SubnetsRenderApart | src/lib.rs:302-316 | the subnets of a well-formed tree print pairwise differently, so each insert of `get_subnets_map` adds a new key |
| Trees.SubnetsMapFilled | src/lib.rs:301-316 | every entry of the map lists at least one address |
| Trees.LeafInMap | src/lib.rs:306-314 | every leaf of a reported subnet is listed, printed, under that subnet's key |
| Trees.PushAllOf | src/lib.rs:67-76 | pushing a list into a root tree keeps it well formed and rooted at 0.0.0.0/0 |
| Trees.PushAllOfConcat | src/lib.rs:57-76 | the loops over two files, one after the other, leave the tree that one loop over the second list followed by the first builds |
| Trees.PushAllOfStep | src/lib.rs:67-68 | the popped last address is accepted, and the rest of the list follows |
| Trees.PushAllLeafSet | src/lib.rs:67-76 | after the loop, the leaf prefixes are the old ones plus the /32 of every address in the list |
| Trees.EveryAddressReported | src/lib.rs:55-79 | after one file's addresses, or several files' joined by `PushAllOfConcat`, are pushed into a new tree, each one is a /32 leaf of some subnet that `get_subnets` reports, and the map `get_subnets_map` returns lists its printed /32 under some key |
| Trees.PushAllLeafBag | src/lib.rs:67-76 | pushing addresses that occur once each and are not leaves yet adds each as exactly one new leaf, as multisets |
| Trees.EveryAddressOnce | src/lib.rs:55-79 | when no address repeats in one file's list (or in several files' joined by `PushAllOfConcat`), the leaves of the tree built from it hold the /32 of each address exactly once, and nothing else |
| AddressTrees.AddressTree.constructor | src/lib.rs:187-192 | `new` builds a valid node standing for the empty root tree |
| AddressTrees.AddressTree.Of | src/lib.rs:195-200 | `of` builds a valid childless node for the /32 of the address |
| AddressTrees.AddressTree.TakeOver | src/lib.rs:256-266 | the node `stepdown` builds for its old self takes over the old prefix and children |
| AddressTrees.AddressTree.Stepdown | src/lib.rs:255-269 | in place, the node takes the new prefix, with children its old self then the neighbour |
| AddressTrees.AddressTree.Push | src/lib.rs:206-253 | in place, `push` succeeds exactly when the value `push` does, and then the node stands for its result. On `Err(a)` nothing changes. Well-formedness is kept |
| AddressTrees.AddressTree.PushIntoChildren | src/lib.rs:209-242 | the loop over the children, then the append, leave the node standing for the value `push` result |
| AddressTrees.AddressTree.PassChildren | src/lib.rs:210-237 | the loop replaces the first child that takes or merges, as the pass does. When none does, nothing changes and the pass has gone past every child |
| AddressTrees.AddressTree.Place | src/lib.rs:213-233 | one turn places `a` exactly when the value turn does, and then the child at `i` stands for its result. Otherwise nothing changes |
| AddressTrees.AddressTree.OfferChild | src/lib.rs:213-214 | `ch.push` succeeds exactly when the child's prefix holds `a`. The node then stands for the child's pushed value; otherwise nothing changes |
| AddressTrees.AddressTree.MergeChild | src/lib.rs:227 | the child at `i` steps down in place under the common prefix, with the new leaf beside it |
| AddressTrees.AddressTree.AppendChild | src/lib.rs:238-241 | the new leaf becomes the last child |
| AddressTrees.AddressTree.Reattach | src/lib.rs:211-213 | a change made in place to one child leaves the siblings as they were, so the node is valid again |
| AddressTrees.PushEach | src/lib.rs:67-76 | popping and pushing every address leaves the tree standing for `PushAllOf`, and no push is refused |
| TreeScenarios.SingleAddressUnderRoot | src/lib.rs:243-248 | one address becomes the root's only child, and the root is the one subnet reported |
| TreeScenarios.DuplicateNests | src/lib.rs:206-253 | pushing the same address twice nests a second /32 under the first, and the leaves stay that one address |
| TreeScenarios.NeighboursMerge | src/lib.rs:217-228 | 10.1.2.3 then 10.1.2.4 step down under 10.1.2.0/29, the one subnet reported |
| TreeScenarios.DistantAddressesMerge | src/lib.rs:217-228 | 10.128.0.5 then 10.0.2.9 step down under 10.0.0.0/8, the one subnet reported |
| TreeScenarios.CommonOfNeighbours | src/lib.rs:217-221 | `common_of` of the two /32s with the bound 1 used under the root is 10.1.2.0/29 |

## Left out

- Reading the address files, parsing the addresses and the `println!` report
  of `find_subnets` are I/O. Only its push loop is modelled (`PushEach`,
  `Trees.PushAllOf`), together with what the report then holds
  (`Trees.EveryAddressReported`).
- The `Err` branch of that loop is not modelled, because a tree rooted at
  0.0.0.0/0 refuses no address. `PushEach` proves the branch is never taken.
- `Config::new`, `recheck_subnets` (a `todo!()` stub), `src/main.rs` and
  `tests/file_consuming.rs` are outside the trie.
- The `eprintln!` tracing in `push` is not modelled.
- `Prefix::set_mask` is test-only and is not modelled.
- `Display for AddressTree` is a debugging printout and is not modelled.
- `Display` output is kept as the four printed numbers and the length
  (`Dotted`), not as text.
- `get_subnets_map` builds a `HashMap`. It is modelled as a Dafny `map` built
  by the same inserts in the same order, so the later of two subnets with the
  same printed prefix wins. Iteration order of the map is not modelled.
- `get_subnets`, `get_leafs` and `get_subnets_map` are modelled on the value a
  node stands for (`Trees.Subnets`, `Trees.Leafs`, `Trees.SubnetsMap`). They
  are not methods of the class: they change nothing, and they return
  references into the trie, which the model replaces by the node values.
- `mask_len` is a `u8` in the source. The model uses a length from 0 to 32.
  Every length computed on a path `push` reaches stays in that range, and
  the `mask_len + 1` of `push` is at most 33. The wrap-around below 0 that
  a release build reaches from a /0 input is recorded under Findings.
- Trees.Subnets: the depth-first order of `get_subnets` is given by the
  definition only, with no separate lemma. The map `get_subnets_map` builds
  does not depend on it, because the keys of the subnets are pairwise
  distinct (`Trees.SubnetsRenderApart`, `Trees.SubnetsMapLastWins`).
- The Rust ownership moves of `stepdown` (`replace`, `take`) are modelled by a
  new node object taking over the old prefix and children, under the
  exclusive-ownership invariant `Valid`.
- The expectations in `src/test.rs` use an older `Subnet` API. They are proved
  about `Prefix`, taking the canonical form of each input (10.1.2.255/24 as
  10.1.2.0/24, 10.1.2.240/26 as 10.1.2.192/26).

## Findings

| source | as written | input that shows it | evidently intended | confidence | as-written member | corrected member |
|---|---|---|---|---|---|---|
| src/lib.rs:150 | the first mask is `u32::MAX << (32 - curr_mask_len)`, a shift by the full width when the shorter length is 0. In a debug build this panics with a shift overflow; in a release build the shift amount wraps, giving an all-ones mask for a /0 | `Prefix::common_of(&Prefix::root(), &Prefix::root(), None)` | the empty mask 0 for length 0, so that the root is its own common prefix (`push` never reaches this case, since its bound is at least 1) | not executed | Prefixes.ShiftedAllOnesOverflowsForRoot | Prefixes.CommonSelf |
| src/lib.rs:160 | with a /0 input whose base differs from the other, a release build steps `curr_mask_len -= 1` from 0, wrapping the `u8` to 255; since `curr_mask_len >= 0` always holds, the loop goes on shifting the mask until the bases agree | `Prefix::common_of(&Prefix::root(), &Prefix::from_addr(&"1.0.0.0".parse().unwrap()), None)`, which returns length 231 with mask 0xFE00_0000 | 0.0.0.0/0, which the documentation at line 137 calls the worst case | not executed | Prefixes.LengthWrapsForRoot | Prefixes.CommonWithRoot |
