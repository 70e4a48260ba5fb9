/** IP prefixes as ban entries: numeric addresses, containment, and the canonical form of an entry.

    An address is a natural number below two to the width of its family. All bit work is done with
    halving and doubling, so every proof stays in linear arithmetic. A canonical entry text is
    represented by the masked prefix it names: the text is an injective name of the prefix. */
module Prefixes {
  import opened Numbers

  datatype Option<+T> = None | Some(value: T)

  datatype Family = V4 | V6

  function Width(f: Family): nat {
    if f.V4? then 32 else 128
  }

  /** `a` without its `k` low bits. */
  function Shift(a: nat, k: nat): nat {
    if k == 0 then a else Shift(a / 2, k - 1)
  }

  /** `a` with its `k` low bits cleared. */
  function Mask(a: nat, k: nat): nat {
    if k == 0 then a else 2 * Mask(a / 2, k - 1)
  }

  lemma {:induction false} ShiftShift(a: nat, j: nat, k: nat)
    ensures Shift(a, j + k) == Shift(Shift(a, j), k)
  {
    if j > 0 { ShiftShift(a / 2, j - 1, k); }
  }

  lemma {:induction false} ShiftMask(a: nat, k: nat)
    ensures Shift(Mask(a, k), k) == Shift(a, k)
    ensures Mask(Mask(a, k), k) == Mask(a, k)
    ensures Mask(a, k) <= a < Mask(a, k) + Pow2(k)
  {
    if k > 0 { ShiftMask(a / 2, k - 1); }
  }

  /** Dropping bits is division. */
  lemma {:induction false} ShiftIsQuotient(a: nat, k: nat)
    ensures Shift(a, k) == a / Pow2(k)
  {
    if k > 0 {
      ShiftIsQuotient(a / 2, k - 1);
      HalfThenDivide(a, Pow2(k - 1));
    }
  }

  /** The two ways to compare network parts agree. */
  lemma {:induction false} SameNetwork(a: nat, b: nat, k: nat)
    ensures Shift(a, k) == Shift(b, k) <==> Mask(a, k) == Mask(b, k)
  {
    if k > 0 { SameNetwork(a / 2, b / 2, k - 1); }
  }

  /** The addresses sharing the network part of a masked `m` are an interval. */
  lemma {:induction false} NetworkIsInterval(m: nat, a: nat, k: nat)
    requires Mask(m, k) == m
    ensures Shift(a, k) == Shift(m, k) <==> m <= a < m + Pow2(k)
  {
    if k > 0 { NetworkIsInterval(m / 2, a / 2, k - 1); }
  }

  /** Clearing many low bits before dropping fewer of them. */
  lemma {:induction false} ShiftOfMask(a: nat, j: nat, k: nat)
    requires j <= k
    ensures Shift(Mask(a, k), j) == Mask(Shift(a, j), k - j)
  {
    if j > 0 {
      var m := Mask(a / 2, k - 1);
      assert Mask(a, k) == 2 * m && Mask(a, k) / 2 == m;
      ShiftOfMask(a / 2, j - 1, k - 1);
      assert Shift(Mask(a, k), j) == Shift(m, j - 1);
    }
  }

  // ----- Prefixes -----

  datatype RawPrefix = Prefix(family: Family, bits: nat, addr: nat) {
    predicate Valid() {
      && bits <= Width(family)
      && addr < Pow2(Width(family))
      && Mask(addr, Width(family) - bits) == addr
    }
  }

  lemma ZeroIsMasked(k: nat)
    ensures Mask(0, k) == 0
  {
  }

  /** A masked prefix (netip.Prefix.Masked()). */
  type Prefix = p: RawPrefix | p.Valid()
    ghost witness (ZeroIsMasked(32); RawPrefix.Prefix(V4, 0, 0))

  /** The number of low address bits the prefix leaves free. */
  function HostBits(p: Prefix): nat {
    Width(p.family) - p.bits
  }

  predicate IsHost(p: Prefix) {
    p.bits == Width(p.family)
  }

  /** `top` followed by `k` zero bits. */
  function Unshift(top: nat, k: nat): nat {
    if k == 0 then top else 2 * Unshift(top, k - 1)
  }

  lemma {:induction false} UnshiftIsMasked(top: nat, j: nat, k: nat)
    requires top < Pow2(j)
    ensures Unshift(top, k) < Pow2(j + k) && Mask(Unshift(top, k), k) == Unshift(top, k)
    ensures Shift(Unshift(top, k), k) == top
  {
    if k > 0 { UnshiftIsMasked(top, j, k - 1); }
  }

  /** The network whose addresses start with the `bits` bits of `top`. */
  function Network(f: Family, top: nat, bits: nat): (p: Prefix)
    requires bits <= Width(f) && top < Pow2(bits)
    ensures forall a: nat :: Has(p, f, a) <==> Shift(a, Width(f) - bits) == top
  {
    UnshiftIsMasked(top, bits, Width(f) - bits);
    RawPrefix.Prefix(f, bits, Unshift(top, Width(f) - bits))
  }

  /** netip.Prefix.Contains: the address has the network part of the prefix. */
  predicate Has(p: Prefix, f: Family, a: nat) {
    p.family == f && Shift(a, HostBits(p)) == Shift(p.addr, HostBits(p))
  }

  /** p lies inside n (or is n). */
  predicate Contains(n: Prefix, p: Prefix) {
    n.bits <= p.bits && Has(n, p.family, p.addr)
  }

  predicate StrictlyCovers(n: Prefix, p: Prefix) {
    n != p && Contains(n, p)
  }

  /** Some address lies in both prefixes (netip.Prefix.Overlaps). */
  ghost predicate Overlap(p: Prefix, q: Prefix) {
    exists f: Family, a: nat :: Has(p, f, a) && Has(q, f, a)
  }

  /** Dropping low bits keeps equality of network parts. */
  lemma WiderNetwork(a: nat, b: nat, j: nat, k: nat)
    requires j <= k && Shift(a, j) == Shift(b, j)
    ensures Shift(a, k) == Shift(b, k)
  {
    ShiftShift(a, j, k - j);
    ShiftShift(b, j, k - j);
  }

  /** The addresses of a prefix are the interval from its address on, of size two to its host bits. */
  lemma PrefixIsInterval(p: Prefix, a: nat)
    ensures Has(p, p.family, a) <==> p.addr <= a < p.addr + Pow2(HostBits(p))
  {
    NetworkIsInterval(p.addr, a, HostBits(p));
  }

  /** Containment is inclusion of the address sets. */
  lemma ContainsIsInclusion(n: Prefix, p: Prefix, f: Family, a: nat)
    requires Contains(n, p) && Has(p, f, a)
    ensures Has(n, f, a)
  {
    WiderNetwork(a, p.addr, HostBits(p), HostBits(n));
  }

  lemma ContainsTransitive(a: Prefix, b: Prefix, c: Prefix)
    requires Contains(a, b) && Contains(b, c)
    ensures Contains(a, c)
  {
    ContainsIsInclusion(a, b, c.family, c.addr);
  }

  lemma ContainsAntisymmetric(a: Prefix, b: Prefix)
    requires Contains(a, b) && a.bits == b.bits
    ensures a == b
  {
    SameNetwork(a.addr, b.addr, HostBits(a));
  }

  /** A strict cover is strictly broader, hence a network. */
  lemma StrictCoverIsBroader(n: Prefix, p: Prefix)
    requires StrictlyCovers(n, p)
    ensures n.bits < p.bits && !IsHost(n)
  {
    if n.bits == p.bits { ContainsAntisymmetric(n, p); }
  }

  /** Prefixes are laminar: two of them are disjoint, or one contains the other. */
  lemma Laminar(p: Prefix, q: Prefix)
    ensures Overlap(p, q) <==> Contains(p, q) || Contains(q, p)
  {
    if Overlap(p, q) {
      var f, a: nat :| Has(p, f, a) && Has(q, f, a);
      if p.bits <= q.bits {
        WiderNetwork(a, q.addr, HostBits(q), HostBits(p));
      } else {
        WiderNetwork(a, p.addr, HostBits(p), HostBits(q));
      }
    }
    if Contains(p, q) { assert Has(p, q.family, q.addr) && Has(q, q.family, q.addr); }
    if Contains(q, p) { assert Has(p, p.family, p.addr) && Has(q, p.family, p.addr); }
  }

  // ----- Entries as they arrive -----

  /** One token of a ban list after text parsing: `Junk` is what neither netip.ParseAddr nor
      netip.ParsePrefix accepts (empty, zoned, garbage). */
  datatype Token =
    | Junk(text: string)
    | AddrToken(family: Family, addr: nat)
    | CidrToken(family: Family, addr: nat, bits: nat)

  /** IPv4-mapped IPv6 (RFC 4291 section 2.5.5.2): the bits above the low 32 are 0xffff. */
  predicate Is4In6(f: Family, a: nat) {
    f.V6? && Shift(a, 32) == 0xffff
  }

  lemma UnmapBound(a: nat)
    ensures a - Mask(a, 32) < Pow2(32)
    ensures Mask(a, 32) <= a
  {
    ShiftMask(a, 32);
  }

  function Unmap(a: nat): (r: nat)
    ensures r < Pow2(32)
  {
    UnmapBound(a);
    a - Mask(a, 32)
  }

  lemma MaskedIsValid(f: Family, a: nat, bits: nat)
    requires bits <= Width(f) && a < Pow2(Width(f))
    ensures RawPrefix.Prefix(f, bits, Mask(a, Width(f) - bits)).Valid()
  {
    ShiftMask(a, Width(f) - bits);
  }

  function Masked(f: Family, a: nat, bits: nat): Prefix
    requires bits <= Width(f) && a < Pow2(Width(f))
  {
    MaskedIsValid(f, a, bits);
    RawPrefix.Prefix(f, bits, Mask(a, Width(f) - bits))
  }

  /** canonicalBanEntry: the masked prefix an entry names, None for a parse error. */
  function CanonicalBanEntry(t: Token): Option<Prefix> {
    match t
    case Junk(_) => None
    case AddrToken(f, a) =>
      if a >= Pow2(Width(f)) then None
      else if Is4In6(f, a) then Some(Masked(V4, Unmap(a), 32))
      else Some(Masked(f, a, Width(f)))
    case CidrToken(f, a, bits) =>
      if a >= Pow2(Width(f)) || bits > Width(f) then None
      else if Is4In6(f, a) then
        if bits < 96 then None else Some(Masked(V4, Unmap(a), bits - 96))
      else Some(Masked(f, a, bits))
  }

  /** The IPv4-mapped addresses are an interval. */
  lemma MappedIsInterval(a: nat)
    ensures Is4In6(V6, a) <==> 0xffff_0000_0000 <= a < 0x1_0000_0000_0000
    ensures Is4In6(V6, a) ==> Unmap(a) == a - 0xffff_0000_0000
  {
    FourGiga();
    BlockOf(a, 32, 0xffff);
  }

  /** The numbers with the same part above the k low bits are a block. */
  lemma BlockOf(a: nat, k: nat, top: nat)
    ensures Shift(a, k) == top <==> top * Pow2(k) <= a < top * Pow2(k) + Pow2(k)
    ensures Mask(a, k) == Shift(a, k) * Pow2(k)
  {
    ShiftMask(a, k);
    MaskIsMultiple(a, k);
    ShiftIsQuotient(a, k);
    if top * Pow2(k) <= a < top * Pow2(k) + Pow2(k) { QuotientIs(a, Pow2(k), top); }
  }

  lemma {:induction false} MaskIsMultiple(a: nat, k: nat)
    ensures Mask(a, k) == Shift(a, k) * Pow2(k)
  {
    if k > 0 {
      MaskIsMultiple(a / 2, k - 1);
      assert Mask(a, k) == 2 * (Shift(a, k) * Pow2(k - 1));
    }
  }

  /** The addresses of a masked prefix: those of its block. */
  lemma MaskedHolds(f: Family, a: nat, bits: nat, x: nat)
    requires bits <= Width(f) && a < Pow2(Width(f))
    ensures Has(Masked(f, a, bits), f, x) <==> x / Pow2(Width(f) - bits) == a / Pow2(Width(f) - bits)
  {
    MaskedShifts(f, a, bits, x);
    ShiftIsQuotient(a, Width(f) - bits);
    ShiftIsQuotient(x, Width(f) - bits);
  }

  lemma MaskedShifts(f: Family, a: nat, bits: nat, x: nat)
    requires bits <= Width(f) && a < Pow2(Width(f))
    ensures Has(Masked(f, a, bits), f, x) <==> Shift(x, Width(f) - bits) == Shift(a, Width(f) - bits)
  {
    HasMasked(Masked(f, a, bits), a, Width(f) - bits, x);
  }

  lemma HasMasked(p: Prefix, a: nat, k: nat, x: nat)
    requires k == HostBits(p) && p.addr == Mask(a, k)
    ensures Has(p, p.family, x) <==> Shift(x, k) == Shift(a, k)
  {
    ShiftMask(a, k);
  }

  /** The number of addresses of a family. */
  function Size(f: Family): nat {
    if f.V4? then 0x1_0000_0000 else 0x1_0000_0000_0000_0000_0000_0000_0000_0000
  }

  lemma FamilySize(f: Family)
    ensures Pow2(Width(f)) == Size(f)
  {
    Pow2Values(0);
  }

  /** The address is IPv4-mapped. */
  predicate Mapped(f: Family, a: nat) {
    f.V6? && 0xffff_0000_0000 <= a < 0x1_0000_0000_0000
  }

  /** The texts that name no entry: what does not parse, an address or a length out of range, and a mapped
      network that is not one of IPv4. */
  predicate NamesNothing(t: Token) {
    match t
    case Junk(_) => true
    case AddrToken(f, a) => a >= Size(f)
    case CidrToken(f, a, bits) => a >= Size(f) || bits > (if f.V4? then 32 else 128) || (Mapped(f, a) && bits < 96)
  }

  /** What an entry names: an address that one alone; a network of `bits` bits all addresses of its family
      that agree with its address in those bits. A mapped one is an IPv4 entry, 96 bits shorter. */
  lemma EntryMeans(t: Token, x: nat)
    ensures CanonicalBanEntry(t).None? <==> NamesNothing(t)
    ensures !t.Junk? && CanonicalBanEntry(t).Some? ==>
              var p := CanonicalBanEntry(t).value;
              var mapped := Mapped(t.family, t.addr);
              var a := if mapped then t.addr - 0xffff_0000_0000 else t.addr;
              var bits := if t.CidrToken? then (if mapped then t.bits - 96 else t.bits) else p.bits;
              && p.family == (if mapped then V4 else t.family) && p.bits == bits
              && Has(p, p.family, a)
              && (t.AddrToken? ==> (Has(p, p.family, x) <==> x == a))
              && (t.CidrToken? ==>
                    var block := Pow2((if p.family.V4? then 32 else 128) - bits);
                    Has(p, p.family, x) <==> x / block == a / block)
  {
    if !t.Junk? {
      FamilySize(t.family);
      MappedIsInterval(t.addr);
      if CanonicalBanEntry(t).Some? {
        var p := CanonicalBanEntry(t).value;
        var a := if Mapped(t.family, t.addr) then Unmap(t.addr) else t.addr;
        MaskedHolds(p.family, a, p.bits, x);
        MaskedHolds(p.family, a, p.bits, a);
      }
    }
  }

  /** banEntryKey: the text a prefix is reported under. */
  function BanEntryKey(p: Prefix): Token {
    if IsHost(p) then AddrToken(p.family, p.addr) else CidrToken(p.family, p.addr, p.bits)
  }

  /** Masking never moves an IPv6 address into the IPv4-mapped range. */
  lemma MaskKeepsOutOfMapped(a: nat, k: nat)
    requires Is4In6(V6, Mask(a, k))
    ensures Is4In6(V6, a)
  {
    if k <= 32 {
      ShiftMask(a, k);
      WiderNetwork(Mask(a, k), a, k, 32);
    } else {
      // The masked address has an even network part there, 0xffff is odd.
      ShiftOfMask(a, 32, k);
      assert false;
    }
  }

  /** A reported text has a length exactly when the entry holds more than one address. */
  lemma KeyForm(p: Prefix)
    ensures BanEntryKey(p)
            == if Pow2(HostBits(p)) == 1 then AddrToken(p.family, p.addr) else CidrToken(p.family, p.addr, p.bits)
  {
    if HostBits(p) > 0 { assert Pow2(HostBits(p)) == 2 * Pow2(HostBits(p) - 1); }
  }

  /** The reported text of an accepted entry parses back to the same prefix, so the string delta the
      server computes against the report converges. */
  lemma KeyRoundTrip(t: Token)
    requires CanonicalBanEntry(t).Some?
    ensures CanonicalBanEntry(BanEntryKey(CanonicalBanEntry(t).value)) == CanonicalBanEntry(t)
  {
    var p := CanonicalBanEntry(t).value;
    if Is4In6(p.family, p.addr) {
      var k := HostBits(p);
      MaskKeepsOutOfMapped(t.addr, k);
      assert false;
    }
  }
}
