/**
  IPv4 prefixes, as `Prefix` in src/lib.rs: a base address (`bean`) whose bits
  below the mask are clear, the number of significant bits (`maskLen`) and the
  mask itself, kept alongside as the source keeps it.
 */
module Prefixes {
  import opened Wrappers

  /** An IPv4 address as the big-endian number `u32::from_be_bytes(addr.octets())`. */
  type Addr = bv32

  /**
    A mask length: 0 (every address) to 32 (a single address). The source
    keeps it in a `u8`; every length computed on a path `push` reaches stays
    in 0..32, so the model uses a bounded `nat`. A release build can wrap the
    length below 0 for a /0 input; `ReleaseSearch` models that case.
   */
  type MaskLen = n: nat | n <= 32

  datatype Prefix = Prefix(bean: bv32, maskLen: MaskLen, mask: bv32)

  function Min(x: MaskLen, y: MaskLen): MaskLen
  {
    if x <= y then x else y
  }

  /**
    The mask of a prefix of length `len`. It is built the way the loop of
    `common_of` walks it: the /32 mask is all ones and each shorter mask is
    the next longer one shifted left by a bit, down to the empty mask of /0.
   */
  function Mask(len: MaskLen): bv32
    decreases 32 - len
  {
    if len == 32 then 0xFFFF_FFFF else Mask(len + 1) << 1
  }

  /** One bit shorter is one shift to the left, the step of the loop of `common_of`. */
  lemma MaskStep(len: MaskLen)
    requires 0 < len
    ensures Mask(len - 1) == Mask(len) << 1
  {
  }

  /** The masks of the octet boundaries, down to the empty mask of length 0. */
  lemma MaskValues()
    ensures Mask(24) == 0xFFFF_FF00 && Mask(16) == 0xFFFF_0000 && Mask(8) == 0xFF00_0000
    ensures Mask(0) == 0
  {
    assert Mask(24) == 0xFFFF_FF00;
    assert Mask(16) == 0xFFFF_0000;
    assert Mask(8) == 0xFF00_0000;
  }

  /** Each mask lies inside the next longer one. */
  lemma {:induction false} MaskGrows(n: MaskLen)
    requires n < 32
    ensures Mask(n) & Mask(n + 1) == Mask(n)
    decreases 32 - n
  {
    if n + 1 < 32 {
      MaskGrows(n + 1);
    }
  }

  /** A shorter mask is a sub-mask of a longer one. */
  lemma {:induction false} MaskNested(short: MaskLen, long: MaskLen)
    requires short <= long
    ensures Mask(short) & Mask(long) == Mask(short)
    decreases long
  {
    if short < long {
      MaskNested(short, long - 1);
      MaskGrows(long - 1);
    }
  }

  /**
    `u32::MAX << amount`, the expression src/lib.rs:150 uses for the first
    mask of `common_of`, with `amount = 32 - len` a `u8`. Rust treats a shift
    by the full width as an overflow, which panics in a debug build; that
    outcome is `None` here.
   */
  function ShiftedAllOnes(amount: bv8): Option<bv32>
  {
    if amount >= 32 then None else Some(0xFFFF_FFFF << amount)
  }

  /** Bit `k` of `x`, counted from the least significant bit. */
  predicate Bit(x: bv32, k: bv8)
    requires k < 32
  {
    (x >> k) & 1 == 1
  }

  /** `u32::MAX << amount` has exactly its bits from `amount` up set. */
  lemma ShiftedAllOnesBits(amount: bv8, k: bv8)
    requires amount < 32 && k < 32
    ensures Bit(ShiftedAllOnes(amount).value, k) <==> amount <= k
  {
  }

  lemma ShiftedAllOnesStep(amount: bv8)
    requires amount < 31
    ensures ShiftedAllOnes(amount + 1) == Some(ShiftedAllOnes(amount).value << 1)
  {
  }

  /**
    For every length from 1 to 32, `Mask` is the source's `u32::MAX << (32 - len)`,
    so its top `len` bits are set and the rest are clear.
   */
  lemma {:induction false} MaskMatchesSource(len: MaskLen, amount: bv8)
    requires 1 <= len && amount as int == 32 - len
    ensures ShiftedAllOnes(amount) == Some(Mask(len))
    decreases 32 - len
  {
    if len < 32 {
      MaskMatchesSource(len + 1, amount - 1);
      ShiftedAllOnesStep(amount - 1);
    }
  }

  /** For length 0, e.g. `common_of(&Prefix::root(), &Prefix::root(), None)`, it overflows. */
  lemma ShiftedAllOnesOverflowsForRoot()
    ensures ShiftedAllOnes(32 - Root().maskLen as bv8).None?
  {
  }

  /**
    Lines 150-161 as a release build runs them, without overflow checks: the
    shift of line 150 takes its amount modulo 32, and `curr_mask_len -= 1` on
    line 160 wraps the `u8` from 0 to 255. `fuel` bounds the turns.
   */
  function ReleaseSearch(b1: bv32, b2: bv32, len: bv8, mask: bv32, minMask: bv8, fuel: nat): Option<(bv8, bv32)>
    decreases fuel
  {
    if fuel == 0 || len < minMask then None
    else if b1 & mask == b2 & mask then Some((len, mask))
    else ReleaseSearch(b1, b2, len - 1, mask << 1, minMask, fuel - 1)
  }

  /**
    For the root and 1.0.0.0 with no bound, the release build starts from
    the all-ones mask, wraps the length below 0 and stops at length 231 with
    mask 0xFE00_0000, where 0.0.0.0/0 was meant.
   */
  lemma LengthWrapsForRoot()
    ensures ReleaseSearch(0, 0x0100_0000, 0, 0xFFFF_FFFF << ((32 - Root().maskLen as bv8) % 32), 0, 33) == Some((231, 0xFE00_0000))
  {
    ReleaseWraps(0);
  }

  /** After `j` turns the length is `0 - j`, wrapped, and the mask has `j` low zero bits. */
  lemma {:induction false} ReleaseWraps(j: bv8)
    requires j <= 25
    ensures ReleaseSearch(0, 0x0100_0000, 0 - j, 0xFFFF_FFFF << j, 0, 33 - j as nat) == Some((231, 0xFE00_0000))
    decreases 25 - j
  {
    if j < 25 {
      var mask: bv32 := 0xFFFF_FFFF << j;
      assert 0x0100_0000 & mask != 0;
      assert mask << 1 == (0xFFFF_FFFF as bv32) << (j + 1);
      ReleaseWraps(j + 1);
    }
  }

  /** A prefix in canonical form: the cached mask matches the length and no bit below it is set. */
  predicate Canonical(p: Prefix)
  {
    p.mask == Mask(p.maskLen) && p.bean & p.mask == p.bean
  }

  /** `Prefix::root`: 0.0.0.0/0, the canonical prefix every address falls in. */
  function Root(): (r: Prefix)
    ensures Canonical(r) && forall a: Addr :: Contains(r, a)
  {
    MaskValues();
    Prefix(0, 0, 0)
  }

  /** `Prefix::from_addr`: the /32 holding exactly `a`. */
  function FromAddr(a: Addr): (r: Prefix)
    ensures Canonical(r) && r.maskLen == 32 && r.bean == a
  {
    Prefix(a, 32, 0xFFFF_FFFF)
  }

  /** The /32 of `a` contains `a` and no other address. */
  lemma FromAddrContains(a: Addr, b: Addr)
    ensures Contains(FromAddr(a), b) <==> b == a
  {
    if b == a {
      assert Contains(FromAddr(a), b);
    } else {
      assert !Contains(FromAddr(a), b);
    }
  }

  /** `Prefix::contains`: the address masked by the prefix's mask is its base. */
  predicate Contains(p: Prefix, a: Addr)
  {
    a & p.mask == p.bean
  }

  /** Two addresses agree on their top `len` bits. */
  predicate Agree(x: bv32, y: bv32, len: MaskLen)
  {
    x & Mask(len) == y & Mask(len)
  }

  /** Agreement on a number of top bits implies agreement on fewer. */
  lemma AgreeShorter(x: bv32, y: bv32, long: MaskLen, short: MaskLen)
    requires short <= long && Agree(x, y, long)
    ensures Agree(x, y, short)
  {
    MaskNested(short, long);
  }

  /** Two prefixes overlap: their bases agree on the length of the shorter one. */
  predicate Overlap(q: Prefix, r: Prefix)
  {
    Agree(q.bean, r.bean, Min(q.maskLen, r.maskLen))
  }

  /** A canonical prefix contains an address exactly when they agree on the prefix's length. */
  lemma ContainsIsAgree(p: Prefix, a: Addr)
    requires Canonical(p)
    ensures Contains(p, a) <==> Agree(a, p.bean, p.maskLen)
  {
    if Contains(p, a) {
      assert Agree(a, p.bean, p.maskLen);
    } else {
      assert !Agree(a, p.bean, p.maskLen);
    }
  }

  /** A prefix inside a canonical `c` agrees with `c` on any length up to `c`'s. */
  lemma InsideAgrees(s: Prefix, c: Prefix, l: MaskLen)
    requires Canonical(c) && Within(s, c) && l <= c.maskLen
    ensures Agree(s.bean, c.bean, l)
  {
    ContainsIsAgree(c, s.bean);
    AgreeShorter(s.bean, c.bean, c.maskLen, l);
  }

  /** `q` lies inside `p`: `q` is no shorter and its base falls in `p`. */
  predicate Within(q: Prefix, p: Prefix)
  {
    p.maskLen <= q.maskLen && Contains(p, q.bean)
  }

  /** The mask of a prefix inside `p` covers the mask of `p`. */
  lemma WithinMasks(q: Prefix, p: Prefix)
    requires Canonical(p) && Canonical(q) && p.maskLen <= q.maskLen
    ensures p.mask & q.mask == p.mask
  {
    MaskNested(p.maskLen, q.maskLen);
  }

  /** Every address of a prefix inside `p` is an address of `p`. */
  lemma WithinContains(q: Prefix, p: Prefix, a: Addr)
    requires Canonical(p) && Canonical(q) && Within(q, p) && Contains(q, a)
    ensures Contains(p, a)
  {
    WithinMasks(q, p);
  }

  lemma WithinTransitive(r: Prefix, q: Prefix, p: Prefix)
    requires Canonical(p) && Canonical(q) && Canonical(r)
    requires Within(r, q) && Within(q, p)
    ensures Within(r, p)
  {
    WithinContains(q, p, r.bean);
  }

  /**
    A canonical prefix inside `p` with the same length is `p` itself; so a
    prefix inside `p` that misses an address of `p` is strictly longer.
   */
  lemma WithinMissesIsLonger(q: Prefix, p: Prefix, a: Addr)
    requires Canonical(p) && Canonical(q) && Within(q, p)
    requires Contains(p, a) && !Contains(q, a)
    ensures p.maskLen < q.maskLen
  {
  }

  /** A canonical prefix of the same length holding `q`'s base holds only what `q` holds. */
  lemma SameLengthSame(q: Prefix, r: Prefix, a: Addr)
    requires Canonical(q) && Canonical(r) && r.maskLen == q.maskLen
    requires Contains(r, q.bean) && Contains(r, a)
    ensures Contains(q, a)
  {
    assert r.bean == q.bean;
  }

  /** A canonical /32 holding `a` is the prefix `from_addr` builds for `a`. */
  lemma HostIsFromAddr(q: Prefix, a: Addr)
    requires Canonical(q) && q.maskLen == 32 && Contains(q, a)
    ensures q == FromAddr(a)
  {
    assert q.mask == 0xFFFF_FFFF;
    assert q.bean == a;
  }

  /**
    A prefix `r` that holds some `q` inside `p` and is no shorter than `p`
    lies inside `p` itself.
   */
  lemma WithinWider(q: Prefix, r: Prefix, p: Prefix)
    requires Canonical(p) && Canonical(q) && Canonical(r)
    requires Within(q, r) && Within(q, p) && p.maskLen <= r.maskLen
    ensures Within(r, p)
  {
    WithinMasks(r, p);
    ContainsThrough(q.bean, r, p);
  }

  /** When `p`'s mask covers `r`'s, an address in both puts `r`'s base in `p`. */
  lemma ContainsThrough(x: Addr, r: Prefix, p: Prefix)
    requires p.mask & r.mask == p.mask
    requires Contains(r, x) && Contains(p, x)
    ensures Contains(p, r.bean)
  {
  }

  /** The prefix of length `len` holding address `a`, as `common_of` builds its result. */
  function PrefixOf(a: Addr, len: MaskLen): Prefix
  {
    Prefix(a & Mask(len), len, Mask(len))
  }

  lemma MaskedTwice(x: bv32, m: bv32)
    ensures (x & m) & m == x & m
  {
  }

  lemma PrefixOfIsCanonical(a: Addr, len: MaskLen)
    ensures Canonical(PrefixOf(a, len))
  {
    MaskedTwice(a, Mask(len));
  }

  lemma PrefixOfContains(a: Addr, len: MaskLen)
    ensures Contains(PrefixOf(a, len), a)
  {
  }

  /** The prefix of length `len` holding `a` is canonical and does hold `a`. */
  lemma PrefixOfCanonical(a: Addr, len: MaskLen)
    ensures Canonical(PrefixOf(a, len)) && Contains(PrefixOf(a, len), a)
  {
    PrefixOfIsCanonical(a, len);
    PrefixOfContains(a, len);
  }

  /** A canonical prefix holding `a` is based on every address that agrees with `a` on its length. */
  lemma ContainsAgreeing(r: Prefix, a: Addr, b: Addr)
    requires Canonical(r) && Contains(r, a) && Agree(a, b, r.maskLen)
    ensures Contains(r, b)
  {
  }

  /**
    The loop of `common_of`, as a recursive search: the longest length from
    `len` down to `minMask` at which `b1` and `b2` agree; `None` when they
    disagree all the way down to `minMask`.
   */
  function Closest(b1: bv32, b2: bv32, len: MaskLen, minMask: nat): (r: Option<MaskLen>)
    requires minMask <= len + 1
    ensures r.Some? ==> minMask <= r.value <= len
    decreases len
  {
    if len < minMask then None
    else if Agree(b1, b2, len) then Some(len)
    else
      MaskValues();
      Closest(b1, b2, len - 1, minMask)
  }

  /** The search stops only at a length where the two bases agree. */
  lemma {:induction false} ClosestAgrees(b1: bv32, b2: bv32, len: MaskLen, minMask: nat, l: MaskLen)
    requires minMask <= len + 1
    requires Closest(b1, b2, len, minMask) == Some(l)
    ensures Agree(b1, b2, l)
    decreases len
  {
    if !Agree(b1, b2, len) {
      ClosestAgrees(b1, b2, len - 1, minMask, l);
    }
  }

  /**
    The search finds the closest common length: the bases disagree on every
    length above it, up to where the search started.
   */
  lemma {:induction false} ClosestMaximal(b1: bv32, b2: bv32, len: MaskLen, minMask: nat, l: MaskLen)
    requires minMask <= len + 1
    requires Closest(b1, b2, len, minMask).Some?
    requires Closest(b1, b2, len, minMask).value < l <= len
    ensures !Agree(b1, b2, l)
    decreases len
  {
    if l < len {
      ClosestMaximal(b1, b2, len - 1, minMask, l);
    }
  }

  /** The bound `common_of` applies when `min_mask` is `None`: 0. */
  function MinMaskOrZero(minMask: Option<nat>): nat
  {
    match minMask
    case Some(m) => m
    case None => 0
  }

  /**
    What `Prefix::common_of` returns: the prefix of `p1`'s base at the closest
    common length. The source panics when the bound is longer than either
    input; that is this function's precondition.
   */
  function Common(p1: Prefix, p2: Prefix, minMask: Option<nat>): Option<Prefix>
    requires MinMaskOrZero(minMask) <= Min(p1.maskLen, p2.maskLen)
  {
    match Closest(p1.bean, p2.bean, Min(p1.maskLen, p2.maskLen), MinMaskOrZero(minMask))
    case None => None
    case Some(l) => Some(PrefixOf(p1.bean, l))
  }

  /**
    `Prefix::common_of`: the shrinking-mask loop. Starts at the shorter of the
    two lengths and shifts the mask left one bit per round until the bases
    agree under it or the length falls below the bound.
   */
  method CommonOf(p1: Prefix, p2: Prefix, minMask: Option<nat>) returns (r: Option<Prefix>)
    requires MinMaskOrZero(minMask) <= Min(p1.maskLen, p2.maskLen)
    ensures r == Common(p1, p2, minMask)
  {
    var b1, b2 := p1.bean, p2.bean;
    var bound := match minMask case Some(m) => m case None => 0;
    var currMaskLen: MaskLen := Min(p1.maskLen, p2.maskLen);
    var currMask := Mask(currMaskLen);
    while currMaskLen >= bound
      invariant bound <= currMaskLen + 1
      invariant currMask == Mask(currMaskLen)
      invariant forall l: MaskLen :: currMaskLen < l <= Min(p1.maskLen, p2.maskLen) ==> !Agree(b1, b2, l)
      decreases currMaskLen
    {
      AgreeUnderMask(b1, b2, currMaskLen, currMask);
      if b1 & currMask == b2 & currMask {
        r := Some(Prefix(b1 & currMask, currMaskLen, currMask));
        PrefixOfMask(b1, currMaskLen, currMask);
        CommonStopsAt(p1, p2, minMask, currMaskLen);
        return;
      }
      DisagreeAtZero(b1, b2, currMaskLen);
      MaskStep(currMaskLen);
      currMask := currMask << 1;
      currMaskLen := currMaskLen - 1;
    }
    ClosestNoAgreement(b1, b2, Min(p1.maskLen, p2.maskLen), bound);
    return None;
  }

  lemma AgreeUnderMask(b1: bv32, b2: bv32, len: MaskLen, m: bv32)
    requires m == Mask(len)
    ensures Agree(b1, b2, len) <==> b1 & m == b2 & m
  {
    if Agree(b1, b2, len) {
      assert b1 & m == b2 & m;
    } else {
      assert b1 & m != b2 & m;
    }
  }

  /** Every pair of addresses agrees on zero bits, so a disagreement is at a positive length. */
  lemma DisagreeAtZero(b1: bv32, b2: bv32, len: MaskLen)
    requires !Agree(b1, b2, len)
    ensures 0 < len
  {
    MaskValues();
  }

  /** The search lands on the first length, going down, at which the bases agree. */
  lemma {:induction false} ClosestFirstAgreement(b1: bv32, b2: bv32, len: MaskLen, minMask: nat, target: MaskLen)
    requires minMask <= target <= len
    requires Agree(b1, b2, target)
    requires forall l: MaskLen :: target < l <= len ==> !Agree(b1, b2, l)
    ensures Closest(b1, b2, len, minMask) == Some(target)
    decreases len
  {
    if target < len {
      ClosestFirstAgreement(b1, b2, len - 1, minMask, target);
    }
  }

  /** The search fails when the bases disagree on every length down to the bound. */
  lemma {:induction false} ClosestNoAgreement(b1: bv32, b2: bv32, len: MaskLen, minMask: nat)
    requires 1 <= minMask <= len + 1
    requires forall l: MaskLen :: minMask <= l <= len ==> !Agree(b1, b2, l)
    ensures Closest(b1, b2, len, minMask).None?
    decreases len
  {
    if minMask <= len {
      ClosestNoAgreement(b1, b2, len - 1, minMask);
    }
  }

  /** The prefix the loop of `common_of` builds from the current mask. */
  lemma PrefixOfMask(a: Addr, len: MaskLen, m: bv32)
    requires m == Mask(len)
    ensures Prefix(a & m, len, m) == PrefixOf(a, len)
  {
  }

  /** The round of the loop of `common_of` that finds the bases agreeing under the current mask. */
  lemma CommonStopsAt(p1: Prefix, p2: Prefix, minMask: Option<nat>, len: MaskLen)
    requires MinMaskOrZero(minMask) <= len <= Min(p1.maskLen, p2.maskLen)
    requires forall l: MaskLen :: len < l <= Min(p1.maskLen, p2.maskLen) ==> !Agree(p1.bean, p2.bean, l)
    requires Agree(p1.bean, p2.bean, len)
    ensures Common(p1, p2, minMask) == Some(PrefixOf(p1.bean, len))
  {
    ClosestFirstAgreement(p1.bean, p2.bean, Min(p1.maskLen, p2.maskLen), MinMaskOrZero(minMask), len);
  }

  /**
    `common_of` returning `Some(r)`: `r` lies between the bound and the
    shorter input length, is canonical and contains both bases.
   */
  lemma CommonFound(p1: Prefix, p2: Prefix, minMask: Option<nat>, r: Prefix)
    requires MinMaskOrZero(minMask) <= Min(p1.maskLen, p2.maskLen)
    requires Common(p1, p2, minMask) == Some(r)
    ensures MinMaskOrZero(minMask) <= r.maskLen <= Min(p1.maskLen, p2.maskLen)
    ensures Canonical(r) && Contains(r, p1.bean) && Contains(r, p2.bean)
  {
    var l := Closest(p1.bean, p2.bean, Min(p1.maskLen, p2.maskLen), MinMaskOrZero(minMask)).value;
    PrefixOfCanonical(p1.bean, l);
    ClosestAgrees(p1.bean, p2.bean, Min(p1.maskLen, p2.maskLen), MinMaskOrZero(minMask), l);
    ContainsAgreeing(r, p1.bean, p2.bean);
  }

  /**
    `common_of` finds the closest common prefix: the bases disagree on every
    length between the result's and the shorter input's.
   */
  lemma CommonMaximal(p1: Prefix, p2: Prefix, minMask: Option<nat>, r: Prefix, l: MaskLen)
    requires MinMaskOrZero(minMask) <= Min(p1.maskLen, p2.maskLen)
    requires Common(p1, p2, minMask) == Some(r)
    requires r.maskLen < l <= Min(p1.maskLen, p2.maskLen)
    ensures !Agree(p1.bean, p2.bean, l)
  {
    ClosestMaximal(p1.bean, p2.bean, Min(p1.maskLen, p2.maskLen), MinMaskOrZero(minMask), l);
  }

  /** The search is symmetric in the two bases. */
  lemma {:induction false} ClosestSymmetric(b1: bv32, b2: bv32, len: MaskLen, minMask: nat)
    requires minMask <= len + 1
    ensures Closest(b1, b2, len, minMask) == Closest(b2, b1, len, minMask)
    decreases len
  {
    if len >= minMask && !Agree(b1, b2, len) {
      MaskValues();
      ClosestSymmetric(b1, b2, len - 1, minMask);
    }
  }

  /** `common_of` is symmetric in its two prefixes. */
  lemma CommonSymmetric(p1: Prefix, p2: Prefix, minMask: Option<nat>)
    requires MinMaskOrZero(minMask) <= Min(p1.maskLen, p2.maskLen)
    ensures Common(p1, p2, minMask) == Common(p2, p1, minMask)
  {
    ClosestSymmetric(p1.bean, p2.bean, Min(p1.maskLen, p2.maskLen), MinMaskOrZero(minMask));
    match Common(p1, p2, minMask)
    case None =>
    case Some(r) =>
      ClosestAgrees(p1.bean, p2.bean, Min(p1.maskLen, p2.maskLen), MinMaskOrZero(minMask), r.maskLen);
  }

  /** The search fails exactly when the two bases disagree under the bound's mask. */
  lemma {:induction false} ClosestNoneIff(b1: bv32, b2: bv32, len: MaskLen, minMask: MaskLen)
    requires minMask <= len
    ensures Closest(b1, b2, len, minMask).None? <==> !Agree(b1, b2, minMask)
    decreases len
  {
    if Agree(b1, b2, len) {
      AgreeShorter(b1, b2, len, minMask);
    } else if len > minMask {
      ClosestNoneIff(b1, b2, len - 1, minMask);
    }
  }

  /**
    `common_of` returns `None` exactly when the bases disagree under the
    bound's mask; without a bound it always finds a common prefix.
   */
  lemma CommonNoneIff(p1: Prefix, p2: Prefix, minMask: Option<nat>)
    requires MinMaskOrZero(minMask) <= Min(p1.maskLen, p2.maskLen)
    ensures Common(p1, p2, minMask).None? <==> !Agree(p1.bean, p2.bean, MinMaskOrZero(minMask))
    ensures minMask.None? ==> Common(p1, p2, minMask).Some?
  {
    MaskValues();
    ClosestNoneIff(p1.bean, p2.bean, Min(p1.maskLen, p2.maskLen), MinMaskOrZero(minMask));
  }

  /** The common prefix contains both inputs. */
  lemma CommonContainsBoth(p1: Prefix, p2: Prefix, minMask: Option<nat>, r: Prefix)
    requires Canonical(p1) && Canonical(p2)
    requires MinMaskOrZero(minMask) <= Min(p1.maskLen, p2.maskLen)
    requires Common(p1, p2, minMask) == Some(r)
    ensures Within(p1, r) && Within(p2, r)
  {
    CommonFound(p1, p2, minMask, r);
    WithinMasks(p1, r);
    WithinMasks(p2, r);
  }

  /** A canonical prefix is its own closest common prefix, the root included. */
  lemma CommonSelf(p: Prefix)
    requires Canonical(p)
    ensures Common(p, p, None) == Some(p)
  {
  }

  /** The root and any single address have the root as their closest common prefix. */
  lemma CommonWithRoot(a: Addr)
    ensures Common(Root(), FromAddr(a), None) == Some(Root())
  {
    MaskValues();
  }

  /** A common prefix of `q` and an address `q` misses is strictly shorter than `q`. */
  lemma CommonShorter(q: Prefix, a: Addr, bound: MaskLen, np: Prefix)
    requires Canonical(q) && !Contains(q, a) && bound <= q.maskLen
    requires Common(q, FromAddr(a), Some(bound)) == Some(np)
    ensures np.maskLen < q.maskLen
  {
    CommonFound(q, FromAddr(a), Some(bound), np);
    if np.maskLen == q.maskLen {
      SameLengthSame(q, np, a);
      assert false;
    }
  }

  /**
    `q` and an address it misses fall in the two halves of their common
    prefix: they differ on the first bit after it.
   */
  lemma CommonSplits(q: Prefix, a: Addr, bound: MaskLen, np: Prefix)
    requires Canonical(q) && !Contains(q, a) && bound <= q.maskLen
    requires Common(q, FromAddr(a), Some(bound)) == Some(np)
    ensures np.maskLen < q.maskLen && !Agree(q.bean, a, np.maskLen + 1)
  {
    CommonShorter(q, a, bound, np);
    CommonMaximal(q, FromAddr(a), Some(bound), np, np.maskLen + 1);
  }

  /**
    When the bases agree on `target` bits but not on one more, the search
    from any longer length lands on `target`.
   */
  lemma {:induction false} ClosestLands(b1: bv32, b2: bv32, len: MaskLen, target: MaskLen, minMask: nat)
    requires minMask <= target <= len
    requires Agree(b1, b2, target)
    requires target < len ==> !Agree(b1, b2, target + 1)
    ensures Closest(b1, b2, len, minMask) == Some(target)
    decreases len
  {
    if len > target {
      if Agree(b1, b2, len) {
        AgreeShorter(b1, b2, len, target + 1);
      }
      ClosestLands(b1, b2, len - 1, target, minMask);
    }
  }

  // The expectations of src/test.rs on common_of.

  lemma CommonOfTwoAddresses()
    ensures Common(FromAddr(0x0A01_0203), FromAddr(0x0A01_0204), None)
         == Some(Prefix(0x0A01_0200, 29, 0xFFFF_FFF8))
  {
    assert Mask(29) == 0xFFFF_FFF8;
    ClosestLands(0x0A01_0203, 0x0A01_0204, 32, 29, 0);
  }

  lemma CommonOfTwoSubnets()
    ensures Common(Prefix(0x0A01_0200, 24, Mask(24)), Prefix(0x0A01_02C0, 26, Mask(26)), None)
         == Some(Prefix(0x0A01_0200, 24, Mask(24)))
  {
    MaskValues();
  }

  lemma CommonOfExtendingPrefix()
    ensures Common(Prefix(0x0A80_0000, 24, Mask(24)), Prefix(0x0A00_0200, 24, Mask(24)), None)
         == Some(Prefix(0x0A00_0000, 8, Mask(8)))
  {
    MaskValues();
    assert Mask(9) == 0xFF80_0000;
    ClosestLands(0x0A80_0000, 0x0A00_0200, 24, 8, 0);
  }

  lemma CommonOfOutsideLimit()
    ensures Common(Prefix(0x0A80_0000, 24, Mask(24)), Prefix(0x0A00_0200, 24, Mask(24)), Some(16)).None?
  {
    MaskValues();
    CommonNoneIff(Prefix(0x0A80_0000, 24, Mask(24)), Prefix(0x0A00_0200, 24, Mask(24)), Some(16));
  }

  /** The four octets and the length that `Display for Prefix` prints as `a.b.c.d/len`. */
  datatype Dotted = Dotted(a: bv8, b: bv8, c: bv8, d: bv8, len: MaskLen)

  /** `Display for Prefix`, reduced to the numbers it prints. */
  function Render(p: Prefix): Dotted
  {
    Dotted(((p.bean & (0xFF << 24)) >> 24) as bv8,
           ((p.bean & (0xFF << 16)) >> 16) as bv8,
           ((p.bean & (0xFF << 8)) >> 8) as bv8,
           (p.bean & 0xFF) as bv8,
           p.maskLen)
  }

  /** The printed octets, most significant first, reassemble into the base. */
  lemma RenderOctets(p: Prefix)
    ensures var r := Render(p);
      ((r.a as bv32) << 24) | ((r.b as bv32) << 16) | ((r.c as bv32) << 8) | (r.d as bv32) == p.bean
    ensures Render(p).len == p.maskLen
  {
    OctetsReassemble(p.bean);
  }

  lemma OctetsReassemble(x: bv32)
    ensures ((((x & (0xFF << 24)) >> 24) as bv8) as bv32 << 24)
          | ((((x & (0xFF << 16)) >> 16) as bv8) as bv32 << 16)
          | ((((x & (0xFF << 8)) >> 8) as bv8) as bv32 << 8)
          | (((x & 0xFF) as bv8) as bv32) == x
  {
  }

  /** Two canonical prefixes print the same exactly when they are equal. */
  lemma RenderInjective(p: Prefix, q: Prefix)
    requires Canonical(p) && Canonical(q)
    ensures Render(p) == Render(q) <==> p == q
  {
    RenderOctets(p);
    RenderOctets(q);
  }
}
