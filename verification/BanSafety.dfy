/** The ban-safety guard, over a fixed protected list: which prefixes may be enforced. */
module BanSafety {
  import opened Numbers
  import opened Prefixes
  import opened IntervalSet

  datatype ProtectedAddr = ProtectedAddr(family: Family, addr: nat, what: string)

  datatype Reason =
    | Accepted
    | WiderThan(floor: nat)
    | ReservedRange(range: Prefix)
    | CoversAddress(addr: ProtectedAddr)

  /** The guard's parameters: prefix floors, refused ranges, and the addresses the agent must keep
      reachable. */
  datatype Guard = Guard(minV4: nat, minV6: nat, reserved: seq<Prefix>, protectedAddrs: seq<ProtectedAddr>)

  /** A range of addresses, by the leading bits they share. */
  datatype Range = Range(family: Family, top: nat, bits: nat) {
    predicate Fits() { bits <= Width(family) && top < Pow2(bits) }
  }

  /** reservedBanRanges. */
  function ReservedTable(): seq<Range> {
    [ Range(V4, 0, 8),         // 0.0.0.0/8, this network
      Range(V4, 127, 8),       // 127.0.0.0/8, loopback
      Range(V4, 0xa9fe, 16),   // 169.254.0.0/16, link-local
      Range(V4, 0xe, 4),       // 224.0.0.0/4, multicast
      Range(V4, 0xf, 4),       // 240.0.0.0/4, class E
      Range(V6, 0, 128),       // ::/128, unspecified
      Range(V6, 1, 128),       // ::1/128, loopback
      Range(V6, 0x3fa, 10),    // fe80::/10, link-local
      Range(V6, 0xff, 8) ]     // ff00::/8, multicast
  }

  lemma TableFits()
    ensures forall r :: r in ReservedTable() ==> r.Fits()
  {
    assert Pow2(8) == 256 && Pow2(16) == Pow2(8) * 256;
  }

  function Networks(t: seq<Range>): (ps: seq<Prefix>)
    requires forall r :: r in t ==> r.Fits()
    ensures |ps| == |t|
    ensures forall i :: 0 <= i < |t| ==> t[i].Fits() && ps[i] == Network(t[i].family, t[i].top, t[i].bits)
  {
    assert forall i :: 0 <= i < |t| ==> t[i].Fits();
    seq(|t|, i requires 0 <= i < |t| && t[i].Fits() => Network(t[i].family, t[i].top, t[i].bits))
  }

  function ReservedBanRanges(): seq<Prefix> {
    TableFits();
    Networks(ReservedTable())
  }

  /** newBanSafety, for a fixed resolution of the protected addresses. */
  function NewGuard(minV4: nat, minV6: nat, protectedAddrs: seq<ProtectedAddr>): Guard {
    Guard(minV4, minV6, ReservedBanRanges(), protectedAddrs)
  }

  function Floor(g: Guard, f: Family): nat {
    if f.V4? then g.minV4 else g.minV6
  }

  /** netip.Prefix.Overlaps: equal network parts at the shorter length. */
  predicate Overlaps(p: Prefix, q: Prefix) {
    && p.family == q.family
    && var k := Width(p.family) - if p.bits < q.bits then p.bits else q.bits;
       Shift(p.addr, k) == Shift(q.addr, k)
  }

  lemma OverlapsMeansSharedAddress(p: Prefix, q: Prefix)
    ensures Overlaps(p, q) <==> Overlap(p, q)
  {
    Laminar(p, q);
  }

  /** What the guard protects: no prefix wider than its floor, none sharing an address with a reserved
      range, none holding a protected address. */
  ghost predicate Safe(g: Guard, p: Prefix) {
    && p.bits >= Floor(g, p.family)
    && (forall r :: r in g.reserved ==> !Overlap(r, p))
    && (forall a :: a in g.protectedAddrs ==> !Has(p, a.family, a.addr))
  }

  ghost predicate AllSafe(g: Guard, s: set<Prefix>) {
    forall p :: p in s ==> Safe(g, p)
  }

  ghost function SafeOf(g: Guard, s: set<Prefix>): set<Prefix> {
    set p | p in s && Safe(g, p)
  }

  /** Safety is inherited by everything inside a safe prefix: an entry retired under a safe network
      can be exposed again later without another check. */
  lemma SafeInside(g: Guard, n: Prefix, p: Prefix)
    requires Safe(g, n) && Contains(n, p)
    ensures Safe(g, p)
  {
    forall r | r in g.reserved ensures !Overlap(r, p) {
      if Overlap(r, p) {
        var f, a: nat :| Has(r, f, a) && Has(p, f, a);
        ContainsIsInclusion(n, p, f, a);
      }
    }
    forall a | a in g.protectedAddrs ensures !Has(p, a.family, a.addr) {
      if Has(p, a.family, a.addr) { ContainsIsInclusion(n, p, a.family, a.addr); }
    }
  }

  lemma NotInRanges(g: Guard, p: Prefix, t: seq<Range>, a: nat)
    requires (forall r :: r in t ==> r.Fits()) && g.reserved == Networks(t)
    requires Safe(g, p) && Has(p, p.family, a)
    ensures forall r :: r in t && r.family == p.family ==> Shift(a, Width(r.family) - r.bits) != r.top
  {
    forall r | r in t && r.family == p.family ensures Shift(a, Width(r.family) - r.bits) != r.top {
      var i :| 0 <= i < |t| && t[i] == r;
      assert g.reserved[i] in g.reserved && !Overlap(g.reserved[i], p);
    }
  }

  /** The addresses nobody may ban: this network, loopback, link-local, multicast and class E; the
      unspecified address, loopback, link-local and multicast. */
  predicate Reserved(f: Family, a: nat) {
    match f
    case V4 =>
      || a < 0x0100_0000 || 0x7f00_0000 <= a < 0x8000_0000 || 0xa9fe_0000 <= a < 0xa9ff_0000
      || 0xe000_0000 <= a < 0x1_0000_0000
    case V6 =>
      || a <= 1
      || 0xfe80_0000_0000_0000_0000_0000_0000_0000 <= a < 0xfec0_0000_0000_0000_0000_0000_0000_0000
      || 0xff00_0000_0000_0000_0000_0000_0000_0000 <= a < 0x1_0000_0000_0000_0000_0000_0000_0000_0000
  }

  /** An address lies in a range of the table. */
  predicate InRange(r: Range, f: Family, a: nat)
    requires r.Fits()
  {
    r.family == f && Shift(a, Width(f) - r.bits) == r.top
  }

  lemma InRangeIs(r: Range, a: nat, k: nat, block: nat)
    requires r.Fits() && k + r.bits == Width(r.family) && block == Pow2(k)
    ensures InRange(r, r.family, a) <==> r.top * block <= a < r.top * block + block
  {
    BlockOf(a, k, r.top);
  }

  ghost predicate InTable(t: seq<Range>, f: Family, a: nat)
    requires forall r :: r in t ==> r.Fits()
  {
    exists i: nat :: i < |t| && t[i].Fits() && InRange(t[i], f, a)
  }

  lemma InTableOfNine(t: seq<Range>, f: Family, a: nat)
    requires |t| == 9 && forall r :: r in t ==> r.Fits()
    ensures forall i: nat :: i < 9 ==> t[i].Fits()
    ensures InTable(t, f, a)
            <==> || InRange(t[0], f, a) || InRange(t[1], f, a) || InRange(t[2], f, a) || InRange(t[3], f, a)
                 || InRange(t[4], f, a) || InRange(t[5], f, a) || InRange(t[6], f, a) || InRange(t[7], f, a)
                 || InRange(t[8], f, a)
  {
    assert forall i: nat :: i < 9 ==> t[i] in t;
  }

  lemma TableIs(f: Family, a: nat)
    ensures (TableFits(); InTable(ReservedTable(), f, a)) <==> Reserved(f, a)
  {
    TableFits();
    InTableOfNine(ReservedTable(), f, a);
    if f.V4? { RangesV4(a, 0); } else { RangesV6(a, 0); }
  }

  lemma RangesV4(a: nat, zero: nat)
    requires zero == 0
    ensures (TableFits();
             var t := ReservedTable();
             || InRange(t[0], V4, a) || InRange(t[1], V4, a) || InRange(t[2], V4, a) || InRange(t[3], V4, a)
             || InRange(t[4], V4, a)) <==> Reserved(V4, a)
  {
    TableFits();
    BlockSizesV4(zero);
    InRangeIs(Range(V4, 0, 8), a, zero + 24, 0x0100_0000);
    InRangeIs(Range(V4, 127, 8), a, zero + 24, 0x0100_0000);
    InRangeIs(Range(V4, 0xa9fe, 16), a, zero + 16, 0x1_0000);
    InRangeIs(Range(V4, 0xe, 4), a, zero + 28, 0x1000_0000);
    InRangeIs(Range(V4, 0xf, 4), a, zero + 28, 0x1000_0000);
  }

  lemma RangesV6(a: nat, zero: nat)
    requires zero == 0
    ensures (TableFits();
             var t := ReservedTable();
             InRange(t[5], V6, a) || InRange(t[6], V6, a) || InRange(t[7], V6, a) || InRange(t[8], V6, a))
            <==> Reserved(V6, a)
  {
    var t := ReservedTable();
    TableFits();
    BlockSizesV6(zero);
    InRangeIs(t[5], a, zero, 1);
    InRangeIs(t[6], a, zero, 1);
    InRangeIs(t[7], a, zero + 118, 0x40_0000_0000_0000_0000_0000_0000_0000);
    InRangeIs(t[8], a, zero + 120, 0x100_0000_0000_0000_0000_0000_0000_0000);
  }

  lemma BlockSizesV4(zero: nat)
    requires zero == 0
    ensures Pow2(zero + 16) == 0x1_0000 && Pow2(zero + 24) == 0x0100_0000 && Pow2(zero + 28) == 0x1000_0000
  {
    assert Pow2(zero) == 1;
    SixteenMore(zero);
    FourMore(zero + 16);
    FourMore(zero + 20);
    FourMore(zero + 24);
  }

  lemma BlockSizesV6(zero: nat)
    requires zero == 0
    ensures Pow2(zero) == 1
    ensures Pow2(zero + 118) == 0x40_0000_0000_0000_0000_0000_0000_0000
    ensures Pow2(zero + 120) == 0x100_0000_0000_0000_0000_0000_0000_0000
  {
    SixteenMore(zero);
    SixteenMore(zero + 16);
    SixteenMore(zero + 32);
    SixteenMore(zero + 48);
    SixteenMore(zero + 64);
    SixteenMore(zero + 80);
    SixteenMore(zero + 96);
    FourMore(zero + 112);
    assert Pow2(zero + 117) == 2 * Pow2(zero + 116) && Pow2(zero + 118) == 2 * Pow2(zero + 117);
    assert Pow2(zero + 119) == 2 * Pow2(zero + 118) && Pow2(zero + 120) == 2 * Pow2(zero + 119);
  }

  /** What the guard of the agent accepts: the prefixes at least as long as the floor of their family that
      hold no reserved address and none the agent needs. */
  lemma SafeMeans(minV4: nat, minV6: nat, addrs: seq<ProtectedAddr>, p: Prefix)
    ensures Safe(NewGuard(minV4, minV6, addrs), p)
            <==> && (if p.family.V4? then p.bits >= minV4 else p.bits >= minV6)
                 && (forall a: nat :: Has(p, p.family, a) ==> !Reserved(p.family, a))
                 && (forall pa :: pa in addrs ==> !Has(p, pa.family, pa.addr))
  {
    var g := NewGuard(minV4, minV6, addrs);
    forall a: nat ensures Reserved(p.family, a) <==> exists r :: r in g.reserved && Has(r, p.family, a) {
      TableFits();
      NetworkOfRange(ReservedTable(), p.family, a);
      TableIs(p.family, a);
    }
    OverlapsIff(g.reserved, p);
  }

  lemma NetworkOfRange(t: seq<Range>, f: Family, a: nat)
    requires forall r :: r in t ==> r.Fits()
    ensures (exists r :: r in Networks(t) && Has(r, f, a)) <==> InTable(t, f, a)
  {
    var ps := Networks(t);
    forall i: nat | i < |t| ensures t[i].Fits() && (Has(ps[i], f, a) <==> InRange(t[i], f, a)) { RangeHas(t[i], f, a); }
    if r :| r in ps && Has(r, f, a) {
      var i: nat :| i < |ps| && ps[i] == r;
    }
  }

  lemma RangeHas(r: Range, f: Family, a: nat)
    requires r.Fits()
    ensures Has(Network(r.family, r.top, r.bits), f, a) <==> InRange(r, f, a)
  {
  }

  lemma OverlapsIff(rs: seq<Prefix>, p: Prefix)
    ensures (forall r :: r in rs ==> !Overlap(r, p))
            <==> forall a: nat :: Has(p, p.family, a) ==> !exists r :: r in rs && Has(r, p.family, a)
  {
    forall r | r in rs ensures Overlap(r, p) <==> exists a: nat :: Has(p, p.family, a) && Has(r, p.family, a) {
      if Overlap(r, p) {
        var f, a: nat :| Has(r, f, a) && Has(p, f, a);
      }
    }
  }

  /** A safe prefix holds no address with the leading bits of a reserved range, and no address the agent
      needs. */
  lemma SafeHoldsNoReservedAddress(minV4: nat, minV6: nat, addrs: seq<ProtectedAddr>, p: Prefix, a: nat)
    requires Safe(NewGuard(minV4, minV6, addrs), p) && Has(p, p.family, a)
    ensures forall r :: r in ReservedTable() && r.family == p.family ==>
                          r.Fits() && Shift(a, Width(r.family) - r.bits) != r.top
    ensures forall pa :: pa in addrs ==> (pa.family, pa.addr) != (p.family, a)
  {
    TableFits();
    NotInRanges(NewGuard(minV4, minV6, addrs), p, ReservedTable(), a);
  }

  /** checkLocked: accepted exactly when safe, otherwise a reason that holds. */
  method Check(g: Guard, p: Prefix) returns (r: Reason)
    ensures r.Accepted? <==> Safe(g, p)
    ensures r.WiderThan? ==> p.bits < r.floor == Floor(g, p.family)
    ensures r.ReservedRange? ==> r.range in g.reserved && Overlap(r.range, p)
    ensures r.CoversAddress? ==> r.addr in g.protectedAddrs && Has(p, r.addr.family, r.addr.addr)
  {
    if p.bits < Floor(g, p.family) {
      return WiderThan(Floor(g, p.family));
    }
    for i := 0 to |g.reserved|
      invariant forall j :: 0 <= j < i ==> !Overlap(g.reserved[j], p)
    {
      OverlapsMeansSharedAddress(g.reserved[i], p);
      if Overlaps(g.reserved[i], p) {
        return ReservedRange(g.reserved[i]);
      }
    }
    for i := 0 to |g.protectedAddrs|
      invariant forall j :: 0 <= j < i ==> !Has(p, g.protectedAddrs[j].family, g.protectedAddrs[j].addr)
    {
      var a := g.protectedAddrs[i];
      if Has(p, a.family, a.addr) {
        return CoversAddress(a);
      }
    }
    return Accepted;
  }

  /** Filter: the safe entries of adds, each once, in order of first appearance (at[i] is the position
      out[i] was first named at). */
  method Filter(g: Guard, adds: seq<Token>) returns (out: seq<Prefix>, ghost at: seq<nat>)
    ensures Filtered(g, adds, |adds|, out, at)
    ensures Elems(out) == SafeOf(g, Canonical(adds)) && NoDup(out)
  {
    out, at := [], [];
    for i := 0 to |adds|
      invariant Filtered(g, adds, i, out, at)
    {
      FilterStep(g, adds, i, out, at);
      var e := CanonicalBanEntry(adds[i]);
      if e.None? { continue; }
      var reason := Check(g, e.value);
      if !reason.Accepted? { continue; }
      if e.value !in out { out, at := out + [e.value], at + [i]; }
    }
    assert adds[..|adds|] == adds;
  }

  /** out lists the safe entries of the first n of adds, each once, in the order of first appearance: at[i]
      is where out[i] appears first. */
  ghost predicate Filtered(g: Guard, adds: seq<Token>, n: nat, out: seq<Prefix>, at: seq<nat>)
    requires n <= |adds|
  {
    && Elems(out) == SafeOf(g, Canonical(adds[..n])) && NoDup(out)
    && |at| == |out| && (forall i, j :: 0 <= i < j < |at| ==> at[i] < at[j])
    && forall i :: 0 <= i < |out| ==>
         && at[i] < n && CanonicalBanEntry(adds[at[i]]) == Some(out[i])
         && out[i] !in Canonical(adds[..at[i]])
  }

  lemma FilterStep(g: Guard, adds: seq<Token>, i: nat, out: seq<Prefix>, at: seq<nat>)
    requires i < |adds| && Filtered(g, adds, i, out, at)
    ensures var e := CanonicalBanEntry(adds[i]);
            if e.Some? && Safe(g, e.value) && e.value !in out then Filtered(g, adds, i + 1, out + [e.value], at + [i])
            else Filtered(g, adds, i + 1, out, at)
  {
    var e := CanonicalBanEntry(adds[i]);
    assert adds[..i + 1] == adds[..i] + [adds[i]];
    CanonicalAppend(adds[..i], adds[i]);
    if e.Some? {
      AppendElems(out, [e.value]);
      assert Elems([e.value]) == {e.value};
      assert e.value in out <==> e.value in Elems(out);
    }
  }

  /** out lists the refused entries of the first n of current, in order: at[i] is where out[i] is. */
  ghost predicate Refused(g: Guard, current: seq<Token>, n: nat, out: seq<Prefix>, at: seq<nat>)
    requires n <= |current|
  {
    && Elems(out) == Canonical(current[..n]) - SafeOf(g, Canonical(current[..n]))
    && |at| == |out| && (forall i, j :: 0 <= i < j < |at| ==> at[i] < at[j])
    && (forall i :: 0 <= i < |out| ==> at[i] < n && CanonicalBanEntry(current[at[i]]) == Some(out[i]))
    && EachRefused(g, current, n, at)
  }

  /** Every refused occurrence is listed, so an entry that occurs twice is listed twice. */
  ghost predicate EachRefused(g: Guard, current: seq<Token>, n: nat, at: seq<nat>)
    requires n <= |current|
  {
    forall i: nat :: i < n && IsRefused(g, current[i]) ==> i in at
  }

  ghost predicate IsRefused(g: Guard, t: Token) {
    CanonicalBanEntry(t).Some? && !Safe(g, CanonicalBanEntry(t).value)
  }

  lemma EachRefusedStep(g: Guard, current: seq<Token>, n: nat, at: seq<nat>)
    requires n < |current| && EachRefused(g, current, n, at)
    ensures EachRefused(g, current, n + 1, if IsRefused(g, current[n]) then at + [n] else at)
  {
    forall i: nat | i < n && IsRefused(g, current[i]) ensures i in at + [n] { assert i in at; }
  }

  lemma RefusedElems(g: Guard, current: seq<Token>, n: nat, out: seq<Prefix>)
    requires n < |current| && Elems(out) == Canonical(current[..n]) - SafeOf(g, Canonical(current[..n]))
    ensures var out' := if IsRefused(g, current[n]) then out + [CanonicalBanEntry(current[n]).value] else out;
            Elems(out') == Canonical(current[..n + 1]) - SafeOf(g, Canonical(current[..n + 1]))
  {
    assert current[..n + 1] == current[..n] + [current[n]];
    CanonicalAppend(current[..n], current[n]);
    if IsRefused(g, current[n]) { AppendElems(out, [CanonicalBanEntry(current[n]).value]); }
  }

  lemma RefuseOne(g: Guard, current: seq<Token>, n: nat, out: seq<Prefix>, at: seq<nat>)
    requires n < |current| && Refused(g, current, n, out, at)
    ensures match CanonicalBanEntry(current[n])
            case None => Refused(g, current, n + 1, out, at)
            case Some(p) => if Safe(g, p) then Refused(g, current, n + 1, out, at)
                            else Refused(g, current, n + 1, out + [p], at + [n])
  {
    EachRefusedStep(g, current, n, at);
    RefusedElems(g, current, n, out);
  }

  /** Unsafe: the entries of current the guard refuses. */
  method Unsafe(g: Guard, current: seq<Token>) returns (out: seq<Prefix>, ghost at: seq<nat>)
    ensures Elems(out) == Canonical(current) - SafeOf(g, Canonical(current))
    ensures Refused(g, current, |current|, out, at)
  {
    out, at := [], [];
    for i := 0 to |current|
      invariant Refused(g, current, i, out, at)
    {
      RefuseOne(g, current, i, out, at);
      var e := CanonicalBanEntry(current[i]);
      if e.None? { continue; }
      var reason := Check(g, e.value);
      if !reason.Accepted? {
        out := out + [e.value];
        at := at + [i];
      }
    }
    assert current[..|current|] == current;
  }
}
