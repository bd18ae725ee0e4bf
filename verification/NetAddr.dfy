/**
 The parts of net/netip the client resolver uses: addresses as 32-bit and 128-bit numbers, and
 prefixes. Parsing text into addresses is a parameter of the model; Lawful states what is assumed of it.
 */
module NetAddr {
  import opened Text

  const TWO32: nat := 0x1_0000_0000
  const TWO128: nat := 0x1_0000_0000_0000_0000_0000_0000_0000_0000
  const MAPPED: nat := 0xffff

  // Zero is netip's invalid zero Addr.
  datatype Addr = Zero | V4(bits: nat) | V6(bits: nat, zone: string)

  predicate InRange(a: Addr) {
    match a
    case Zero => true
    case V4(b) => b < TWO32
    case V6(b, _) => b < TWO128
  }

  predicate Is4In6(a: Addr) { a.V6? && a.bits / TWO32 == MAPPED }

  function Unmap(a: Addr): Addr {
    if Is4In6(a) then V4(a.bits % TWO32) else a
  }

  function Zone(a: Addr): string { if a.V6? then a.zone else "" }

  // The IPv4-mapped IPv6 form of an address, netip.AddrFrom16(ip.As16()).
  function Map16(a: Addr): Addr
    requires !a.Zero?
  {
    match a
    case V4(b) => V6(MAPPED * TWO32 + b, "")
    case V6(b, _) => V6(b, "")
  }

  predicate AddrByte(c: char) {
    IsDigit(c) || 'a' <= c <= 'f' || 'A' <= c <= 'F' || c == ':' || c == '.'
  }

  // What is assumed of netip.ParseAddr: it yields real addresses; an IPv4 literal is digits and
  // dots; an IPv6 literal holds a ':' and, without a zone, only hex digits, ':' and '.'; no literal
  // starts with a quote or bracket.
  ghost predicate Lawful(parse: string -> Option<Addr>) {
    forall s :: parse(s).Some? ==>
      && !parse(s).value.Zero? && InRange(parse(s).value)
      && (parse(s).value.V4? ==> All(s, c => IsDigit(c) || c == '.'))
      && (parse(s).value.V6? ==> ':' in s)
      && (parse(s).value.V6? && parse(s).value.zone == "" ==> All(s, AddrByte))
      && (s != "" ==> s[0] != '"' && s[0] != '[')
  }
}
