/**
  CIDR containment (cmd/web/proposals.go coveringExclusion, excludeCandidates, the confirm gate;
  cmd/web/seeds.go refusalOverCap). Prefixes are those of section 3.1 of RFC 4632: a family, an
  address as a number, and a bit length; the addresses of a prefix are those that share its first
  bits.
*/
module PrefixCover {
  import opened Wrappers

  datatype Family = V4 | V6

  function BitLen(f: Family): nat {
    if f == V4 then 32 else 128
  }

  function Pow2(n: nat): (p: nat)
    ensures p > 0
  {
    if n == 0 then 1 else 2 * Pow2(n - 1)
  }

  datatype Addr = Addr(family: Family, value: nat)

  predicate ValidAddr(a: Addr) {
    a.value < Pow2(BitLen(a.family))
  }

  datatype Prefix = Invalid | Prefix(addr: Addr, length: nat)

  predicate ValidPrefix(p: Prefix) {
    p.Prefix? && ValidAddr(p.addr) && p.length <= BitLen(p.addr.family)
  }

  /** An invalid prefix reports -1 bits, as netip does. */
  function Bits(p: Prefix): int {
    if ValidPrefix(p) then p.length else -1
  }

  /** The size of a prefix's block. */
  function BlockSize(p: Prefix): nat
    requires ValidPrefix(p)
  {
    Pow2(BitLen(p.addr.family) - p.length)
  }

  predicate Contains(p: Prefix, a: Addr) {
    && ValidPrefix(p)
    && p.addr.family == a.family
    && p.addr.value / BlockSize(p) == a.value / BlockSize(p)
  }

  /** The greatest multiple of `d` that is not above `x`. */
  function FloorTo(x: nat, d: nat): nat
    requires d > 0
  {
    x - x % d
  }

  function Masked(p: Prefix): Prefix {
    if ValidPrefix(p) then p.(addr := p.addr.(value := FloorTo(p.addr.value, BlockSize(p)))) else Invalid
  }

  /** The two comparisons the code makes. */
  predicate Covers(e: Prefix, scope: Prefix) {
    Bits(e) <= Bits(scope) && scope.Prefix? && Contains(e, scope.addr)
  }

  /** Every address of the scope is an address of `e`. */
  ghost predicate WhollyInside(scope: Prefix, e: Prefix) {
    forall a :: ValidAddr(a) && Contains(scope, a) ==> Contains(e, a)
  }

  // ---------------------------------------------------------------- arithmetic of blocks

  lemma {:induction false} Pow2Add(a: nat, b: nat)
    ensures Pow2(a + b) == Pow2(a) * Pow2(b)
  {
    if a > 0 {
      Pow2Add(a - 1, b);
      assert Pow2(a + b) == 2 * Pow2(a - 1 + b);
    }
  }

  lemma MulLeq(a: nat, b: nat, c: nat)
    requires a <= b
    ensures a * c <= b * c
  {
  }

  lemma DivIs(x: nat, d: nat, q: nat, r: nat)
    requires d > 0 && x == q * d + r && r < d
    ensures x / d == q && x % d == r
  {
    var q' := x / d;
    if q' < q {
      MulLeq(q' + 1, q, d);
    } else if q' > q {
      MulLeq(q + 1, q', d);
    }
  }

  lemma FloorToIs(x: nat, d: nat)
    requires d > 0
    ensures FloorTo(x, d) == x / d * d <= x
    ensures FloorTo(x, d) / d == x / d && FloorTo(x, d) % d == 0
  {
    DivIs(FloorTo(x, d), d, x / d, 0);
  }

  lemma Regroup(q: nat, n: nat, r: nat, m: nat)
    ensures (q * n + r) * m == q * (m * n) + r * m
  {
  }

  /** x = q*m + r and q = q2*n + r2 make q2 the quotient of x by m*n. */
  lemma TwoStepDivision(x: nat, m: nat, n: nat, mn: nat, q: nat, r: nat, q2: nat, r2: nat)
    requires mn == m * n && mn > 0
    requires x == q * m + r && r < m
    requires q == q2 * n + r2 && r2 < n
    ensures x / mn == q2
  {
    Regroup(q2, n, r2, m);
    MulLeq(r2 + 1, n, m);
    assert (r2 + 1) * m == r2 * m + m;
    assert n * m == mn;
    DivIs(x, mn, q2, r2 * m + r);
  }

  lemma MulPositive(m: nat, n: nat)
    requires m > 0 && n > 0
    ensures m * n > 0
  {
  }

  lemma DivMod(x: nat, m: nat)
    requires m > 0
    ensures x == x / m * m + x % m && 0 <= x % m < m
  {
  }

  lemma DivDiv(x: nat, m: nat, n: nat)
    requires m > 0 && n > 0
    ensures m * n > 0
    ensures x / (m * n) == (x / m) / n
  {
    MulPositive(m, n);
    DivMod(x, m);
    DivMod(x / m, n);
    TwoStepDivision(x, m, n, m * n, x / m, x % m, x / m / n, x / m % n);
  }

  /** Sharing a longer prefix means sharing every shorter one. */
  lemma SharedBitsNest(x: nat, y: nat, small: nat, large: nat)
    requires small <= large
    requires x / Pow2(small) == y / Pow2(small)
    ensures x / Pow2(large) == y / Pow2(large)
  {
    Pow2Add(small, large - small);
    DivDiv(x, Pow2(small), Pow2(large - small));
    DivDiv(y, Pow2(small), Pow2(large - small));
  }

  lemma {:induction false} SmallerPow(small: nat, large: nat)
    requires small < large
    ensures 2 * Pow2(small) <= Pow2(large)
  {
    if small + 1 < large {
      SmallerPow(small, large - 1);
    }
  }

  /** Stepping over a smaller block that divides a larger one: the quotient by the smaller moves on. */
  lemma StepSplits(q: nat, ratio: nat, s: nat)
    requires s > 0
    ensures q * (s * ratio) / s == q * ratio
    ensures (q * (s * ratio) + s) / s == q * ratio + 1
  {
    Regroup(q, ratio, 0, s);
    DivIs(q * (s * ratio), s, q * ratio, 0);
    Regroup(q, ratio, 1, s);
    DivIs(q * (s * ratio) + s, s, q * ratio + 1, 0);
  }

  lemma BlockSplits(x: nat, s: nat, l: nat, ratio: nat)
    requires 0 < s && 2 * s <= l && l == s * ratio
    ensures var base := FloorTo(x, l);
            && base / l == x / l
            && (base + s) / l == x / l
            && base / s != (base + s) / s
  {
    FloorToIs(x, l);
    DivIs(x / l * l + s, l, x / l, s);
    StepSplits(x / l, ratio, s);
  }

  /** A block larger than another holds two addresses the smaller one tells apart. */
  lemma LargerBlockSplits(x: nat, small: nat, large: nat)
    requires small < large
    ensures var base := FloorTo(x, Pow2(large));
            && base / Pow2(large) == x / Pow2(large)
            && (base + Pow2(small)) / Pow2(large) == x / Pow2(large)
            && base / Pow2(small) != (base + Pow2(small)) / Pow2(small)
  {
    SmallerPow(small, large);
    Pow2Add(small, large - small);
    BlockSplits(x, Pow2(small), Pow2(large), Pow2(large - small));
  }

  lemma BlockFits(value: nat, b: nat, n: nat, whole: nat, offset: nat)
    requires whole == b * n && value < whole && offset < b
    ensures FloorTo(value, b) + offset < whole
  {
    FloorToIs(value, b);
    var q := value / b;
    if q >= n {
      MulLeq(n, q, b);
    } else {
      MulLeq(q + 1, n, b);
      assert (q + 1) * b == q * b + b;
    }
  }

  /** The addresses of a block of a valid prefix are valid. */
  lemma BlockIsValid(value: nat, len: nat, hostBits: nat, offset: nat)
    requires hostBits <= len && value < Pow2(len) && offset < Pow2(hostBits)
    ensures FloorTo(value, Pow2(hostBits)) + offset < Pow2(len)
  {
    Pow2Add(hostBits, len - hostBits);
    BlockFits(value, Pow2(hostBits), Pow2(len - hostBits), Pow2(len), offset);
  }

  // ---------------------------------------------------------------- the test is inclusion

  lemma CoversImpliesInside(e: Prefix, scope: Prefix)
    requires ValidPrefix(scope) && Covers(e, scope)
    ensures WhollyInside(scope, e)
  {
    forall a | ValidAddr(a) && Contains(scope, a)
      ensures Contains(e, a)
    {
      var len := BitLen(a.family);
      SharedBitsNest(scope.addr.value, a.value, len - scope.length, len - e.length);
    }
  }

  /** An exclusion with a longer prefix than the scope misses one of two addresses of the scope. */
  lemma LongerPrefixMisses(e: Prefix, scope: Prefix)
    requires ValidPrefix(scope) && ValidPrefix(e) && e.addr.family == scope.addr.family && e.length > scope.length
    ensures !WhollyInside(scope, e)
  {
    var family, len := scope.addr.family, BitLen(scope.addr.family);
    var small, large := len - e.length, len - scope.length;
    LargerBlockSplits(scope.addr.value, small, large);
    SmallerPow(small, large);
    BlockIsValid(scope.addr.value, len, large, 0);
    BlockIsValid(scope.addr.value, len, large, Pow2(small));
    var base := FloorTo(scope.addr.value, Pow2(large));
    var a, b := Addr(family, base), Addr(family, base + Pow2(small));
    assert Contains(scope, a) && Contains(scope, b);
    assert ValidAddr(a) && ValidAddr(b);
    assert !(Contains(e, a) && Contains(e, b));
  }

  lemma InsideImpliesCovers(e: Prefix, scope: Prefix)
    requires ValidPrefix(scope) && WhollyInside(scope, e)
    ensures Covers(e, scope)
  {
    assert Contains(scope, scope.addr);
    assert Contains(e, scope.addr);
    if e.length > scope.length {
      LongerPrefixMisses(e, scope);
    }
  }

  /** For a valid scope, the two comparisons hold exactly when the exclusion's address set contains
      every address of the scope. */
  lemma CoversIsInclusion(e: Prefix, scope: Prefix)
    requires ValidPrefix(scope)
    ensures Covers(e, scope) <==> WhollyInside(scope, e)
  {
    if Covers(e, scope) {
      CoversImpliesInside(e, scope);
    }
    if WhollyInside(scope, e) {
      InsideImpliesCovers(e, scope);
    }
  }

  /** Masking keeps a prefix's addresses. */
  lemma MaskedKeepsAddresses(p: Prefix, a: Addr)
    requires ValidPrefix(p)
    ensures ValidPrefix(Masked(p)) && Masked(p).length == p.length
    ensures Contains(Masked(p), a) <==> Contains(p, a)
  {
    var hostBits := BitLen(p.addr.family) - p.length;
    BlockIsValid(p.addr.value, BitLen(p.addr.family), hostBits, 0);
    FloorToIs(p.addr.value, BlockSize(p));
  }

  // ---------------------------------------------------------------- the loops

  /** The first exclusion that holds the whole scope, if any does; a nil entry is passed over. */
  method CoveringExclusion(scope: Prefix, excl: seq<Option<Prefix>>) returns (r: Option<Prefix>)
    ensures ValidPrefix(scope) ==>
              (r.Some? <==> exists i :: 0 <= i < |excl| && excl[i].Some? && WhollyInside(scope, excl[i].value))
    ensures ValidPrefix(scope) && r.Some? ==> r in excl && WhollyInside(scope, r.value)
    ensures !ValidPrefix(scope) ==> r.None?
  {
    for i := 0 to |excl|
      invariant ValidPrefix(scope) ==> forall k :: 0 <= k < i && excl[k].Some? ==> !WhollyInside(scope, excl[k].value)
    {
      if excl[i].None? {
        continue;
      }
      var e := excl[i].value;
      if ValidPrefix(scope) {
        CoversIsInclusion(e, scope);
      }
      if Bits(e) <= Bits(scope) && scope.Prefix? && Contains(e, scope.addr) {
        return Some(e);
      }
    }
    r := None;
  }

  ghost predicate Excluded(scope: Prefix, excl: seq<Option<Prefix>>) {
    ValidPrefix(scope) && exists i :: 0 <= i < |excl| && excl[i].Some? && WhollyInside(scope, excl[i].value)
  }

  /** The candidates that stay, in order. */
  ghost function Kept(cands: seq<Prefix>, excl: seq<Option<Prefix>>): seq<Prefix> {
    if cands == [] then []
    else Kept(cands[..|cands| - 1], excl) + if Excluded(cands[|cands| - 1], excl) then [] else [cands[|cands| - 1]]
  }

  /** The positions of the candidates that lie wholly inside no one exclusion. */
  ghost predicate StayPositions(at: seq<nat>, cands: seq<Prefix>, excl: seq<Option<Prefix>>) {
    && (forall k :: 0 <= k < |at| ==> at[k] < |cands|)
    && (forall k, l :: 0 <= k < l < |at| ==> at[k] < at[l])
    && forall i :: 0 <= i < |cands| ==> (i in at <==> !Excluded(cands[i], excl))
  }

  ghost predicate AreKept(out: seq<Prefix>, at: seq<nat>, cands: seq<Prefix>, excl: seq<Option<Prefix>>) {
    && StayPositions(at, cands, excl)
    && |out| == |at|
    && forall k :: 0 <= k < |at| ==> out[k] == cands[at[k]]
  }

  lemma {:induction false} KeptAre(cands: seq<Prefix>, excl: seq<Option<Prefix>>) returns (at: seq<nat>)
    ensures AreKept(Kept(cands, excl), at, cands, excl)
  {
    if cands == [] {
      at := [];
    } else {
      var n := |cands| - 1;
      var before := KeptAre(cands[..n], excl);
      at := if Excluded(cands[n], excl) then before else before + [n];
      KeptSnoc(cands, excl, before, at);
    }
  }

  lemma KeptSnoc(cands: seq<Prefix>, excl: seq<Option<Prefix>>, before: seq<nat>, at: seq<nat>)
    requires cands != []
    requires AreKept(Kept(cands[..|cands| - 1], excl), before, cands[..|cands| - 1], excl)
    requires at == if Excluded(cands[|cands| - 1], excl) then before else before + [|cands| - 1]
    ensures AreKept(Kept(cands, excl), at, cands, excl)
  {
    var n := |cands| - 1;
    forall i | 0 <= i < |cands|
      ensures i in at <==> !Excluded(cands[i], excl)
    {
      if i < n {
        assert cands[..n][i] == cands[i];
        assert i in at <==> i in before;
      } else {
        assert i !in before;
      }
    }
  }

  lemma MaskedExcluded(p: Prefix, excl: seq<Option<Prefix>>)
    ensures Excluded(Masked(p), excl) <==> Excluded(p, excl)
    ensures ValidPrefix(Masked(p)) <==> ValidPrefix(p)
  {
    if ValidPrefix(p) {
      forall a ensures Contains(Masked(p), a) <==> Contains(p, a) { MaskedKeepsAddresses(p, a); }
      forall e ensures WhollyInside(Masked(p), e) <==> WhollyInside(p, e) { }
    }
  }

  /** Filtering keeps, in order, exactly the candidates that lie wholly inside no one exclusion. */
  method ExcludeCandidates(cands: seq<Prefix>, excl: seq<Option<Prefix>>) returns (out: seq<Prefix>)
    ensures out == Kept(cands, excl)
    ensures exists at :: AreKept(out, at, cands, excl)
  {
    out := [];
    for i := 0 to |cands|
      invariant out == Kept(cands[..i], excl)
    {
      assert cands[..i + 1][..i] == cands[..i];
      MaskedExcluded(cands[i], excl);
      var e := CoveringExclusion(Masked(cands[i]), excl);
      if e.None? {
        out := out + [cands[i]];
      }
    }
    assert cands[..|cands|] == cands;
    ghost var at := KeptAre(cands, excl);
  }

  /** The confirm gate refuses exactly the scopes the filter would have dropped. */
  method ConfirmRefused(cidr: Prefix, excl: seq<Option<Prefix>>) returns (refused: bool)
    ensures refused <==> Kept([cidr], excl) == []
    ensures refused <==> Excluded(cidr, excl)
  {
    MaskedExcluded(cidr, excl);
    var e := CoveringExclusion(Masked(cidr), excl);
    assert [cidr][..0] == [];
    refused := e.Some?;
  }

  // ---------------------------------------------------------------- the block a refusal names

  lemma {:induction false} Pow2Monotone(a: nat, b: nat)
    requires a <= b
    ensures Pow2(a) <= Pow2(b)
  {
    if a < b {
      Pow2Monotone(a, b - 1);
    }
  }

  /** A one shifted left in a signed 64-bit word. */
  function Shifted(n: nat): int {
    if n == 63 then 0 - (Pow2(63) as int) else if n > 63 then 0 else Pow2(n) as int
  }

  /** It is the power of two, wrapped around into a signed 64-bit word. */
  lemma ShiftedWraps(n: nat) returns (turns: nat)
    ensures 0 - (Pow2(63) as int) <= Shifted(n) < Pow2(63)
    ensures Shifted(n) == Pow2(n) - turns * Pow2(64)
  {
    if n < 63 {
      Pow2Monotone(n, 62);
      turns := 0;
    } else if n == 63 {
      turns := 1;
    } else {
      Pow2Add(n - 64, 64);
      turns := Pow2(n - 64);
    }
  }

  predicate FitsCap(bits: nat, length: nat, cap: nat)
    requires length <= bits
  {
    Pow2(bits - length) <= cap
  }

  /** The length of the narrower block a refused IPv4 scope is pointed to. `bits` is 32, or 128 for an
      address in IPv4-mapped form. Below a cap of 2^62 the block fits the cap and no larger one does; from
      there on the shift overflows for the 128-bit form, and the whole space is named. */
  method ReachableLength(bits: nat, cap: nat) returns (length: nat)
    requires bits in {32, 128} && 1 <= cap < Pow2(63)
    ensures length <= bits
    ensures bits == 32 || cap < Pow2(62) ==> forall l: nat :: l <= bits ==> (FitsCap(bits, l, cap) <==> l >= length)
    ensures FitsCap(bits, length, cap) <==> bits == 32 || cap < Pow2(62)
    ensures bits == 128 && cap >= Pow2(62) ==> length == 0
  {
    var host := 0;
    while host + 1 <= bits && Shifted(host + 1) <= cap
      invariant host <= bits
      invariant host <= 62 ==> Pow2(host) <= cap
      invariant host > 62 ==> Pow2(62) <= cap
      decreases bits - host
    {
      host := host + 1;
    }
    length := bits - host;
    if bits == 32 || cap < Pow2(62) {
      if host < 62 && host < bits {
        assert Pow2(host + 1) > cap;
      }
      forall l: nat | l <= bits
        ensures FitsCap(bits, l, cap) <==> l >= length
      {
        FitsFromLength(bits, l, host, cap);
      }
    } else {
      OverflowNamesAll(host, cap);
    }
  }

  lemma OverflowNamesAll(host: nat, cap: nat)
    requires Pow2(62) <= cap < Pow2(63) && host <= 128
    requires host < 128 ==> Shifted(host + 1) > cap
    ensures host == 128 && !FitsCap(128, 0, cap)
  {
    Pow2Monotone(63, 128);
    if host < 62 {
      Pow2Monotone(host + 1, 62);
    }
  }

  lemma FitsFromLength(bits: nat, l: nat, host: nat, cap: nat)
    requires l <= bits && host <= bits && Pow2(host) <= cap && (host == bits || Pow2(host + 1) > cap)
    ensures FitsCap(bits, l, cap) <==> l >= bits - host
  {
    if l >= bits - host {
      Pow2Monotone(bits - l, host);
    } else {
      Pow2Monotone(host + 1, bits - l);
    }
  }

  /** An IPv4 address is one 32-bit word, an IPv6 address four. */
  lemma AddressSpaces()
    ensures Pow2(BitLen(V4)) == 0x1_0000_0000 && BitLen(V6) == 4 * BitLen(V4)
  {
    assert Pow2(8) == 0x100;
    Pow2Add(8, 8);
    assert Pow2(16) == 0x1_0000;
    Pow2Add(16, 16);
  }

  /** The two ends of a prefix's length: one address, or all of its family. */
  lemma PrefixEnds(a: Addr, b: Addr)
    requires ValidAddr(a) && ValidAddr(b)
    ensures Contains(Prefix(a, BitLen(a.family)), b) <==> a == b
    ensures Contains(Prefix(a, 0), b) <==> a.family == b.family
  {
    if a.family == b.family {
      var space := Pow2(BitLen(a.family));
      DivIs(a.value, space, 0, a.value);
      DivIs(b.value, space, 0, b.value);
      DivIs(a.value, 1, a.value, 0);
      DivIs(b.value, 1, b.value, 0);
    }
  }
}
