/**
 clientip.go: trusted prefixes over 32-bit and 128-bit addresses, and the canonical form a trusted
 prefix is stored in.
 */
module Trust {
  import opened Text
  import opened NetAddr

  function Pow2(n: nat): (p: nat)
    ensures p > 0
  {
    if n == 0 then 1 else 2 * Pow2(n - 1)
  }

  // netip.Prefix: the address may have bits set below the prefix length.
  datatype Prefix = Prefix(addr: Addr, bits: nat)

  function Width(a: Addr): nat { if a.V4? then 32 else 128 }

  predicate ValidPrefix(p: Prefix) {
    && !p.addr.Zero? && InRange(p.addr) && Zone(p.addr) == ""
    && p.bits <= Width(p.addr)
  }

  // netip.Prefix.Contains: same family, no zone, and equal leading bits; an invalid prefix holds nothing.
  predicate Contains(p: Prefix, ip: Addr) {
    && ValidPrefix(p)
    && !ip.Zero? && ip.V4? == p.addr.V4? && Zone(ip) == ""
    && ip.bits / Pow2(Width(ip) - p.bits) == p.addr.bits / Pow2(Width(ip) - p.bits)
  }

  predicate AllValid(trusted: seq<Prefix>) {
    forall i :: 0 <= i < |trusted| ==> ValidPrefix(trusted[i])
  }

  predicate Matches(p: Prefix, ip: Addr) {
    Contains(p, ip) || (ip.V4? && Contains(p, Map16(ip)))
  }

  ghost predicate Trusted(ip: Addr, trusted: seq<Prefix>) {
    !ip.Zero? && exists i :: 0 <= i < |trusted| && Matches(trusted[i], ip)
  }

  // inTrusted
  method InTrusted(ip: Addr, trusted: seq<Prefix>) returns (r: bool)
    ensures r <==> Trusted(ip, trusted)
  {
    if ip.Zero? {
      return false;
    }
    var mapped := Map16(ip);
    for i := 0 to |trusted|
      invariant forall k :: 0 <= k < i ==> !Matches(trusted[k], ip)
    {
      var p := trusted[i];
      if Contains(p, ip) || (ip.V4? && Contains(p, mapped)) {
        assert Matches(trusted[i], ip);
        return true;
      }
    }
    return false;
  }

  // The largest multiple of k up to x: x with its low bits cleared when k is a power of two.
  function Floor(x: nat, k: nat): (r: nat)
    requires k > 0
    ensures r <= x
  {
    DivMod(x, k);
    MulOrder(0, x / k, k);
    x / k * k
  }

  // netip.Prefix.Masked
  function Masked(p: Prefix): (r: Prefix)
    requires ValidPrefix(p)
  {
    var k := Pow2(Width(p.addr) - p.bits);
    var bits := Floor(p.addr.bits, k);
    Prefix(if p.addr.V4? then V4(bits) else V6(bits, ""), p.bits)
  }

  // The prefix parseTrustedPrefix stores for a parsed one.
  function Canonical(p: Prefix): Prefix
    requires ValidPrefix(p)
  {
    if Is4In6(p.addr) && p.bits >= 96 then
      ValidUnmapped(p);
      Masked(Prefix(Unmap(p.addr), p.bits - 96))
    else Masked(p)
  }

  // parseTrustedPrefix, over the two netip parsers: a CIDR, or a bare address without a zone as a
  // single-host prefix.
  function ParseTrustedPrefix(parsePrefix: string -> Option<Prefix>, parseAddr: string -> Option<Addr>,
                              s: string): Option<Prefix>
    requires forall t :: parsePrefix(t).Some? ==> ValidPrefix(parsePrefix(t).value)
    requires forall t :: parseAddr(t).Some? ==> InRange(parseAddr(t).value) && !parseAddr(t).value.Zero?
  {
    match parsePrefix(s)
    case Some(p) => Some(Canonical(p))
    case None =>
      match parseAddr(s)
      case None => None
      case Some(ip) => if Zone(ip) != "" then None else Some(Canonical(Prefix(ip, Width(ip))))
  }

  lemma ValidUnmapped(p: Prefix)
    requires ValidPrefix(p) && Is4In6(p.addr) && p.bits >= 96
    ensures ValidPrefix(Prefix(Unmap(p.addr), p.bits - 96))
  {}

  // ---------- arithmetic ----------

  lemma {:induction false} Pow2Sum(a: nat, b: nat)
    ensures Pow2(a + b) == Pow2(a) * Pow2(b)
  {
    if a > 0 { Pow2Sum(a - 1, b); }
  }

  lemma {:induction false} Pow2At32()
    ensures Pow2(32) == TWO32
  {
    assert Pow2(8) == 256;
    Pow2Sum(8, 8);
    Pow2Sum(16, 16);
  }

  lemma {:induction false} MulOrder(a: int, b: int, k: nat)
    requires a <= b
    ensures a * k <= b * k
    decreases k
  {
    if k > 0 { MulOrder(a, b, k - 1); }
  }

  lemma SmallMultiple(d: int, k: nat, e: int)
    requires d * k == e && -(k as int) < e < k
    ensures d == 0
  {
    if d >= 1 { MulOrder(1, d, k); }
    if d <= -1 { MulOrder(d, -1, k); }
  }

  lemma Regroup(a: int, b: int, c: int, k: int)
    ensures (a * b + c) * k == a * (b * k) + c * k
  {
    assert (a * b + c) * k == (a * b) * k + c * k;
    assert (a * b) * k == a * (b * k);
  }

  lemma DivMod(x: nat, k: nat)
    requires k > 0
    ensures x == x / k * k + x % k && 0 <= x % k < k && x / k >= 0
  {}

  lemma UniqueParts(k: nat, q0: int, r0: nat, q: int, r: nat)
    requires r0 < k && r < k && q0 * k + r0 == q * k + r
    ensures q0 == q && r0 == r
  {
    Regroup(q0, 1, -q, k);
    SmallMultiple(q0 - q, k, r - r0);
  }

  lemma DivUnique(x: nat, k: nat, q: nat, r: nat)
    requires r < k && x == q * k + r
    ensures x / k == q && x % k == r
  {
    DivMod(x, k);
    UniqueParts(k, x / k, x % k, q, r);
  }

  lemma FloorKeepsQuotient(x: nat, k: nat)
    requires k > 0
    ensures x / k * k / k == x / k
  {
    DivUnique(x / k * k, k, x / k, 0);
  }

  // Dividing by a * b is dividing twice.
  lemma DivTwice(x: nat, a: nat, b: nat)
    requires a > 0 && b > 0
    ensures a * b > 0 && x / (a * b) == x / a / b
  {
    DivMod(x, a);
    var q, r := x / a, x % a;
    DivMod(q, b);
    DivTwiceParts(x, a, b, q, r, q / b, q % b);
  }

  lemma DivTwiceParts(x: nat, a: nat, b: nat, q: nat, r: nat, q': nat, r': nat)
    requires r < a && r' < b
    requires x == q * a + r && q == q' * b + r'
    ensures a * b > 0 && x / (a * b) == q'
  {
    Regroup(q', b, r', a);
    MulOrder(r', b - 1, a);
    Regroup(b, 1, -1, a);
    DivUnique(x, a * b, q', r' * a + r);
  }

  // A multiple of 2^32 does not carry into a shift of at most 32 bits.
  lemma ShiftMapped(high: nat, low: nat, k: nat)
    requires k <= 32
    ensures (high * TWO32 + low) / Pow2(k) == high * Pow2(32 - k) + low / Pow2(k)
  {
    Pow2At32();
    Pow2Sum(32 - k, k);
    DivMod(low, Pow2(k));
    ShiftParts(high, low, Pow2(k), Pow2(32 - k), low / Pow2(k), low % Pow2(k));
  }

  lemma ShiftParts(high: nat, low: nat, p: nat, q: nat, quot: nat, rem: nat)
    requires q * p == TWO32 && low == quot * p + rem && rem < p
    ensures (high * TWO32 + low) / p == high * q + quot
  {
    Regroup(high, q, quot, p);
    DivUnique(high * TWO32 + low, p, high * q + quot, rem);
  }

  lemma Above32(x: nat, k: nat)
    requires k <= 32
    ensures x / TWO32 == x / Pow2(k) / Pow2(32 - k)
  {
    Pow2At32();
    Pow2Sum(k, 32 - k);
    DivTwice(x, Pow2(k), Pow2(32 - k));
  }

  // Numbers equal above a shift of at most 32 bits are equal above 32 bits.
  lemma CoarserShift(x: nat, y: nat, k: nat)
    requires k <= 32 && x / Pow2(k) == y / Pow2(k)
    ensures x / TWO32 == y / TWO32
  {
    Above32(x, k);
    Above32(y, k);
  }

  // ---------- canonical prefixes ----------

  lemma MaskedContains(p: Prefix, ip: Addr)
    requires ValidPrefix(p)
    ensures ValidPrefix(Masked(p)) && Masked(Masked(p)) == Masked(p)
    ensures Contains(Masked(p), ip) == Contains(p, ip)
  {
    var k := Pow2(Width(p.addr) - p.bits);
    DivMod(p.addr.bits, k);
    FloorKeepsQuotient(p.addr.bits, k);
  }

  // Against an IPv4-mapped prefix of at least 96 bits, an IPv4 address in mapped form matches as it
  // does against the unmapped prefix.
  lemma MappedContains(p: Prefix, ip: Addr)
    requires ValidPrefix(p) && Is4In6(p.addr) && p.bits >= 96
    requires ip.V4? && InRange(ip)
    ensures ValidPrefix(Prefix(Unmap(p.addr), p.bits - 96))
    ensures Contains(p, Map16(ip)) == Contains(Prefix(Unmap(p.addr), p.bits - 96), ip)
  {
    var k := 128 - p.bits;
    var low := p.addr.bits % TWO32;
    assert p.addr.bits == MAPPED * TWO32 + low;
    ShiftMapped(MAPPED, low, k);
    ShiftMapped(MAPPED, ip.bits, k);
  }

  // No address outside the mapped block is in a mapped prefix of at least 96 bits.
  lemma OutsideMapped(p: Prefix, ip: Addr)
    requires ValidPrefix(p) && Is4In6(p.addr) && p.bits >= 96
    requires ip.V6? && !Is4In6(ip)
    ensures !Contains(p, ip)
  {
    if Contains(p, ip) { CoarserShift(ip.bits, p.addr.bits, 128 - p.bits); }
  }

  // Storing a trusted prefix in canonical form changes the membership of no unmapped address.
  lemma CanonicalKeepsMatches(p: Prefix, ip: Addr)
    requires ValidPrefix(p) && InRange(ip) && !ip.Zero? && !Is4In6(ip)
    ensures ValidPrefix(Canonical(p))
    ensures Matches(Canonical(p), ip) == Matches(p, ip)
  {
    hide Contains, Masked;
    if Is4In6(p.addr) && p.bits >= 96 {
      var q := Prefix(Unmap(p.addr), p.bits - 96);
      ValidUnmapped(p);
      MaskedContains(q, ip);
      FamiliesDiffer(q, Map16(ip));
      FamiliesDiffer(Masked(q), Map16(ip));
      if ip.V4? {
        MappedContains(p, ip);
        FamiliesDiffer(p, ip);
      } else {
        OutsideMapped(p, ip);
        FamiliesDiffer(Masked(q), ip);
      }
    } else {
      MaskedContains(p, ip);
      MaskedContains(p, Map16(ip));
    }
  }

  lemma FamiliesDiffer(p: Prefix, ip: Addr)
    requires ValidPrefix(p)
    ensures ip.V4? != p.addr.V4? ==> !Contains(p, ip)
    ensures ValidPrefix(Masked(p)) && Masked(p).addr.V4? == p.addr.V4?
  {
    DivMod(p.addr.bits, Pow2(Width(p.addr) - p.bits));
  }

  function CanonicalAll(trusted: seq<Prefix>): seq<Prefix>
    requires AllValid(trusted)
  {
    seq(|trusted|, i requires 0 <= i < |trusted| => Canonical(trusted[i]))
  }

  // The trusted set in canonical form answers as the raw one for every unmapped address, and both
  // spellings of an IPv4 network have one canonical form.
  lemma CanonicalKeepsTrust(trusted: seq<Prefix>, ip: Addr)
    requires AllValid(trusted) && InRange(ip) && !Is4In6(ip)
    ensures AllValid(CanonicalAll(trusted))
    ensures Trusted(ip, CanonicalAll(trusted)) <==> Trusted(ip, trusted)
  {
    hide Canonical, Matches;
    var cs := CanonicalAll(trusted);
    forall i | 0 <= i < |trusted| ensures ValidPrefix(cs[i]) {
      CanonicalKeepsMatches(trusted[i], V4(0));
    }
    if !ip.Zero? {
      forall i | 0 <= i < |trusted| ensures Matches(cs[i], ip) == Matches(trusted[i], ip) {
        CanonicalKeepsMatches(trusted[i], ip);
      }
    }
  }

  lemma SpellingsAgree(p: Prefix)
    requires ValidPrefix(p) && p.addr.V4?
    ensures ValidPrefix(Prefix(Map16(p.addr), p.bits + 96))
    ensures Canonical(Prefix(Map16(p.addr), p.bits + 96)) == Canonical(p)
  {
    DivUnique(MAPPED * TWO32 + p.addr.bits, TWO32, MAPPED, p.addr.bits);
  }

  // Prefixes of one length that hold each other's address are one network, and have one canonical
  // form: the host bits are gone.
  lemma OneNetworkOneForm(p: Prefix, q: Prefix)
    requires ValidPrefix(p) && ValidPrefix(q) && p.bits == q.bits && Contains(p, q.addr)
    ensures Canonical(p) == Canonical(q)
  {
    hide Contains, Masked, Is4In6;
    SameMask(p, q);
    if p.addr.V6? && p.bits >= 96 {
      SameBlock(p, q);
      if Is4In6(p.addr) {
        SameLow(p, q);
        ValidUnmapped(p);
        ValidUnmapped(q);
        SameMask(Prefix(Unmap(p.addr), p.bits - 96), Prefix(Unmap(q.addr), p.bits - 96));
      }
    }
    FourInSix(p.addr);
    FourInSix(q.addr);
    SameFamily(p, q);
  }

  lemma SameFamily(p: Prefix, q: Prefix)
    requires ValidPrefix(p) && Contains(p, q.addr)
    ensures p.addr.V4? == q.addr.V4? && p.addr.V6? == q.addr.V6?
  {}

  lemma FourInSix(a: Addr)
    ensures Is4In6(a) ==> a.V6?
  {}

  lemma SameMask(p: Prefix, q: Prefix)
    requires ValidPrefix(p) && ValidPrefix(q) && p.bits == q.bits && Contains(p, q.addr)
    ensures Masked(p) == Masked(q)
  {}

  lemma SameBlock(p: Prefix, q: Prefix)
    requires ValidPrefix(p) && ValidPrefix(q) && p.bits == q.bits && Contains(p, q.addr) && p.addr.V6? && p.bits >= 96
    ensures Is4In6(p.addr) == Is4In6(q.addr)
  {
    CoarserShift(p.addr.bits, q.addr.bits, 128 - p.bits);
  }

  lemma SameLow(p: Prefix, q: Prefix)
    requires ValidPrefix(p) && ValidPrefix(q) && p.bits == q.bits && Contains(p, q.addr) && p.bits >= 96
    requires Is4In6(p.addr) && Is4In6(q.addr)
    ensures ValidPrefix(Prefix(Unmap(p.addr), p.bits - 96))
    ensures Contains(Prefix(Unmap(p.addr), p.bits - 96), Unmap(q.addr))
  {
    hide Pow2;
    LowParts(p.addr);
    LowParts(q.addr);
    ShiftMapped(MAPPED, p.addr.bits % TWO32, 128 - p.bits);
    ShiftMapped(MAPPED, q.addr.bits % TWO32, 128 - p.bits);
  }

  lemma LowParts(a: Addr)
    requires Is4In6(a)
    ensures a.bits == MAPPED * TWO32 + a.bits % TWO32 && Unmap(a) == V4(a.bits % TWO32)
  {}

  // A prefix as long as its address holds that address only.
  lemma FullPrefixAlone(ip: Addr, x: Addr)
    requires !ip.Zero? && InRange(ip) && Zone(ip) == ""
    ensures ValidPrefix(Prefix(ip, Width(ip)))
    ensures Contains(Prefix(ip, Width(ip)), x) <==> x == ip
  {
    assert Pow2(0) == 1;
    if !x.Zero? && x.V4? == ip.V4? {
      assert x.bits / 1 == x.bits && ip.bits / 1 == ip.bits;
    }
  }

  // An IPv4 address in mapped form is ip exactly when it is ip unmapped.
  lemma MapsBack(ip: Addr, x: Addr)
    requires x.V4? && InRange(x)
    ensures Unmap(Map16(x)) == x && Is4In6(Map16(x))
    ensures Is4In6(ip) && InRange(ip) && Zone(ip) == "" ==> Map16(Unmap(ip)) == ip
  {
    DivUnique(MAPPED * TWO32 + x.bits, TWO32, MAPPED, x.bits);
    if Is4In6(ip) { LowParts(ip); }
  }

  // A bare address is trusted alone: its stored prefix matches that address, unmapped, and no other.
  lemma BareAddressAlone(ip: Addr, x: Addr)
    requires !ip.Zero? && InRange(ip) && Zone(ip) == ""
    requires !x.Zero? && InRange(x) && !Is4In6(x)
    ensures ValidPrefix(Canonical(Prefix(ip, Width(ip))))
    ensures Matches(Canonical(Prefix(ip, Width(ip))), x) <==> x == Unmap(ip)
  {
    hide Contains, Canonical, Is4In6, Map16, InRange;
    FullPrefixAlone(ip, x);
    FullPrefixAlone(ip, Map16(x));
    CanonicalKeepsMatches(Prefix(ip, Width(ip)), x);
    if x.V4? { MapsBack(ip, x); }
    PlainUnmap(ip);
  }

  lemma PlainUnmap(ip: Addr)
    ensures !Is4In6(ip) ==> Unmap(ip) == ip
    ensures Is4In6(ip) ==> ip.V6? && Unmap(ip).V4?
  {}

  // An entry is refused exactly when it is neither a prefix nor an address without a zone; a CIDR is
  // stored trusting what it names, a bare address trusting that address alone.
  lemma EntryMeaning(parsePrefix: string -> Option<Prefix>, parseAddr: string -> Option<Addr>, s: string, x: Addr)
    requires forall t :: parsePrefix(t).Some? ==> ValidPrefix(parsePrefix(t).value)
    requires forall t :: parseAddr(t).Some? ==> InRange(parseAddr(t).value) && !parseAddr(t).value.Zero?
    requires !x.Zero? && InRange(x) && !Is4In6(x)
    ensures var r := ParseTrustedPrefix(parsePrefix, parseAddr, s);
            && (r.Some? <==> parsePrefix(s).Some? || (parseAddr(s).Some? && Zone(parseAddr(s).value) == ""))
            && (r.Some? ==> ValidPrefix(r.value))
            && (r.Some? ==> (Matches(r.value, x) <==>
                 if parsePrefix(s).Some? then Matches(parsePrefix(s).value, x) else x == Unmap(parseAddr(s).value)))
  {
    hide Matches, Canonical, Is4In6, Map16, InRange, Zone, Unmap;
    if parsePrefix(s).Some? {
      CanonicalKeepsMatches(parsePrefix(s).value, x);
    } else if parseAddr(s).Some? && Zone(parseAddr(s).value) == "" {
      BareAddressAlone(parseAddr(s).value, x);
    }
  }
}
