/** clientip.go: the client resolver, from the three forwarding fields to the right-to-left trust walk. */
module ClientIp {
  import opened Text
  import opened FieldList
  import opened NetAddr
  import opened Trust
  import opened ForwardedElement
  import opened ForwardedField

  // netip.ParseAddr and the address part of netip.ParseAddrPort.
  datatype Parsers = Parsers(addr: string -> Option<Addr>, addrPort: string -> Option<Addr>)

  datatype ListEntry = ListEntry(addr: Addr, bare: bool)

  // The field lines a request carries for the three forwarding fields.
  datatype Fields = Fields(xff: seq<string>, realIP: seq<string>, forwarded: seq<string>)

  datatype Forwarding = Forwarding(xff: seq<ListEntry>, realIP: seq<ListEntry>, forwarded: seq<ForwardedElement>)

  const ZERO_ENTRY := ListEntry(Zero, false)

  predicate IsQuote(c: char) { c == '"' }

  function ParseListEntry(ps: Parsers, elem: string): ListEntry {
    var bare := ps.addr(elem);
    var ip :=
      if bare.Some? then bare.value
      else
        var inner := Trim(elem, IsQuote);
        match ps.addrPort(inner)
        case Some(a) => a
        case None =>
          match ps.addr(CutSuffix(CutPrefix(inner, "[").0, "]"))
          case Some(a) => a
          case None => Zero;
    if Zone(ip) != "" then ZERO_ENTRY else ListEntry(Unmap(ip), bare.Some?)
  }

  function ReadList(ps: Parsers, lines: seq<string>): seq<ListEntry> {
    Bounded(Elements(TokenList, Join(lines, ",")), s => ParseListEntry(ps, s), ZERO_ENTRY)
  }

  function ReadForwarded(ps: Parsers, lines: seq<string>): seq<ForwardedElement> {
    Bounded(Elements(QuotedStringList, Join(lines, ",")), s => ParseElement(ps.addr, s), ForwardedElement(Zero, false))
  }

  // parseForwarding
  method ParseForwarding(ps: Parsers, fields: Fields) returns (f: Forwarding)
    ensures f == Forwarding(ReadList(ps, fields.xff), ReadList(ps, fields.realIP), ReadForwarded(ps, fields.forwarded))
  {
    hide Elements, ParseListEntry, ParseElement;
    var xff := ParseBounded(fields.xff, TokenList, s => ParseListEntry(ps, s), ZERO_ENTRY);
    var realIP := ParseBounded(fields.realIP, TokenList, s => ParseListEntry(ps, s), ZERO_ENTRY);
    var forwarded :=
      ParseBounded(fields.forwarded, QuotedStringList, s => ParseElement(ps.addr, s), ForwardedElement(Zero, false));
    f := Forwarding(xff, realIP, forwarded);
  }

  // ---------- the trust walk ----------

  // The entry the walk answers: an untrusted address alone, with only trusted addresses after it.
  ghost predicate Chosen(xff: seq<ListEntry>, trusted: seq<Prefix>, k: int) {
    && 0 <= k < |xff| && xff[k].bare && !Trusted(xff[k].addr, trusted)
    && forall j :: k < j < |xff| ==> xff[j].bare && Trusted(xff[j].addr, trusted)
  }

  // forwarding.client
  method Client(xff: seq<ListEntry>, trusted: seq<Prefix>) returns (r: Option<Addr>)
    ensures r.Some? ==> exists k :: Chosen(xff, trusted, k) && r.value == xff[k].addr
    ensures r.None? ==> !exists k :: Chosen(xff, trusted, k)
  {
    var i := |xff|;
    while i > 0
      invariant 0 <= i <= |xff|
      invariant forall j :: i <= j < |xff| ==> xff[j].bare && Trusted(xff[j].addr, trusted)
    {
      i := i - 1;
      var e := xff[i];
      if !e.bare {
        return None;
      }
      var inside := InTrusted(e.addr, trusted);
      if !inside {
        assert Chosen(xff, trusted, i);
        return Some(e.addr);
      }
    }
    return None;
  }

  lemma ChosenUnique(xff: seq<ListEntry>, trusted: seq<Prefix>, k: int, k': int)
    requires Chosen(xff, trusted, k) && Chosen(xff, trusted, k')
    ensures k == k'
  {
    hide Trusted;
  }

  // Entries put before the walk's start never move its answer.
  lemma ChosenAfterPrefix(pre: seq<ListEntry>, xff: seq<ListEntry>, trusted: seq<Prefix>, k: int)
    requires Chosen(xff, trusted, k)
    ensures Chosen(pre + xff, trusted, |pre| + k) && (pre + xff)[|pre| + k] == xff[k]
  {
    hide Trusted;
    forall j | |pre| + k < j < |pre + xff| ensures (pre + xff)[j].bare && Trusted((pre + xff)[j].addr, trusted) {
      assert (pre + xff)[j] == xff[j - |pre|];
    }
  }

  // ---------- the resolver ----------

  datatype ClientResolution = ClientResolution(
    ip: Addr, peer: Addr, forwarded: bool, untrustedForwarding: bool, ignoredPublic: bool)

  predicate Present(f: Forwarding) { |f.xff| > 0 || |f.realIP| > 0 || |f.forwarded| > 0 }

  predicate Public(isPublic: Addr -> bool, f: Forwarding) {
    || (exists i :: 0 <= i < |f.xff| && isPublic(f.xff[i].addr))
    || (exists i :: 0 <= i < |f.realIP| && isPublic(f.realIP[i].addr))
    || (exists i :: 0 <= i < |f.forwarded| && f.forwarded[i].valid && isPublic(f.forwarded[i].forNode))
  }

  // What the resolver promises about its answer.
  ghost predicate Resolves(ps: Parsers, isPublic: Addr -> bool, peer: Addr, fields: Fields, trusted: seq<Prefix>,
                           res: ClientResolution) {
    var xff := ReadList(ps, fields.xff);
    var f := Forwarding(xff, ReadList(ps, fields.realIP), ReadForwarded(ps, fields.forwarded));
    && res.peer == peer
    && (!res.forwarded ==> res.ip == peer)
    && (res.forwarded <==> Trusted(peer, trusted) && exists k :: Chosen(xff, trusted, k))
    && (res.forwarded ==> exists k :: Chosen(xff, trusted, k) && res.ip == xff[k].addr)
    && res.untrustedForwarding == (!Trusted(peer, trusted) && Present(f))
    && res.ignoredPublic == (!Trusted(peer, trusted) && Public(isPublic, f))
  }

  // ResolveClient. The peer's text is already split from its port and parsed; None is a RemoteAddr
  // that is no address.
  method ResolveClient(ps: Parsers, isPublic: Addr -> bool, remote: Option<Addr>, fields: Fields, trusted: seq<Prefix>)
    returns (res: ClientResolution)
    ensures Resolves(ps, isPublic, if remote.Some? then Unmap(remote.value) else Zero, fields, trusted, res)
  {
    hide Trusted, ReadList, ReadForwarded;
    var peer := if remote.Some? then Unmap(remote.value) else Zero;
    res := ClientResolution(peer, peer, false, false, false);
    var fwd := ParseForwarding(ps, fields);
    var inside := InTrusted(peer, trusted);
    if !inside {
      res := res.(untrustedForwarding := Present(fwd), ignoredPublic := Public(isPublic, fwd));
      return;
    }
    var ip := Client(fwd.xff, trusted);
    if ip.Some? {
      res := res.(ip := ip.value, forwarded := true);
    }
  }

  // ---------- a client cannot move the walk ----------

  lemma {:induction false} JoinPrepends(pre: seq<string>, lines: seq<string>)
    requires pre != [] && lines != []
    ensures Join(pre + lines, ",") == Join(pre, ",") + "," + Join(lines, ",")
  {
    assert (pre + lines)[1..] == pre[1..] + lines;
    if |pre| == 1 {
      assert pre[1..] + lines == lines;
    } else {
      JoinPrepends(pre[1..], lines);
      var a, b, c := pre[0] + ",", Join(pre[1..], ","), "," + Join(lines, ",");
      assert a + (b + c) == (a + b) + c;
    }
  }

  lemma ReadPrepended(ps: Parsers, front: string, lines: seq<string>, lines': seq<string>)
    requires Join(lines', ",") == front + "," + Join(lines, ",")
    ensures var n := |Elements(TokenList, front)| + |Elements(TokenList, Join(lines, ","))|;
            if n > MAX_HOPS then ReadList(ps, lines') == [ZERO_ENTRY]
            else exists pre :: ReadList(ps, lines') == pre + ReadList(ps, lines)
  {
    hide Elements, ParseListEntry, Join;
    TokenListIsPlain(front);
    ElementsSplit(TokenList, front, Join(lines, ","));
    var a, b := Elements(TokenList, front), Elements(TokenList, Join(lines, ","));
    if |a| + |b| <= MAX_HOPS {
      var f := s => ParseListEntry(ps, s);
      assert Bounded(a + b, f, ZERO_ENTRY) == Bounded(a, f, ZERO_ENTRY) + Bounded(b, f, ZERO_ENTRY);
      assert ReadList(ps, lines') == Bounded(a, f, ZERO_ENTRY) + ReadList(ps, lines);
    }
  }

  lemma AnswerIsChosen(ps: Parsers, isPublic: Addr -> bool, peer: Addr, fields: Fields, trusted: seq<Prefix>,
                       res: ClientResolution, k: int)
    requires Trusted(peer, trusted) && Resolves(ps, isPublic, peer, fields, trusted, res)
    requires Chosen(ReadList(ps, fields.xff), trusted, k)
    ensures res.forwarded && res.ip == ReadList(ps, fields.xff)[k].addr
  {
    hide Trusted, ReadList, ReadForwarded, Public, Present;
    var xff := ReadList(ps, fields.xff);
    assert Chosen(xff, trusted, k);
    var k' :| Chosen(xff, trusted, k') && res.ip == xff[k'].addr;
    ChosenUnique(xff, trusted, k, k');
  }

  // Once the walk finds a client, no bytes and comma put in front of the field change the client,
  // short of making the field exceed 64 elements, which answers the peer.
  lemma PrependingKeepsClient(ps: Parsers, isPublic: Addr -> bool, peer: Addr, fields: Fields, trusted: seq<Prefix>,
                              front: string, xff': seq<string>, res: ClientResolution, res': ClientResolution)
    requires Join(xff', ",") == front + "," + Join(fields.xff, ",")
    requires Resolves(ps, isPublic, peer, fields, trusted, res) && res.forwarded
    requires Resolves(ps, isPublic, peer, fields.(xff := xff'), trusted, res')
    ensures |Elements(TokenList, Join(xff', ","))| <= MAX_HOPS ==> res' == res
    ensures |Elements(TokenList, Join(xff', ","))| > MAX_HOPS ==> !res'.forwarded && res'.ip == peer
  {
    hide Elements, Join, Trusted, ReadList, ReadForwarded, Public, Present;
    ReadPrepended(ps, front, fields.xff, xff');
    TokenListIsPlain(front);
    ElementsSplit(TokenList, front, Join(fields.xff, ","));
    var was := ReadList(ps, fields.xff);
    var now := ReadList(ps, xff');
    var k :| Chosen(was, trusted, k) && res.ip == was[k].addr;
    if |Elements(TokenList, Join(xff', ","))| <= MAX_HOPS {
      var pre :| now == pre + was;
      ChosenAfterPrefix(pre, was, trusted, k);
      AnswerIsChosen(ps, isPublic, peer, fields.(xff := xff'), trusted, res', |pre| + k);
    }
  }

  // The two ways a client has of putting bytes in front: more field lines, or bytes before a line.
  lemma WaysToPrepend(pre: seq<string>, bytes: string, lines: seq<string>)
    requires lines != []
    ensures pre != [] ==> Join(pre + lines, ",") == Join(pre, ",") + "," + Join(lines, ",")
    ensures Join([bytes + "," + lines[0]] + lines[1..], ",") == bytes + "," + Join(lines, ",")
  {
    if pre != [] { JoinPrepends(pre, lines); }
    var ls := [bytes + "," + lines[0]] + lines[1..];
    assert ls[1..] == lines[1..];
    if |lines| > 1 {
      assert bytes + "," + lines[0] + "," + Join(lines[1..], ",") ==
             bytes + "," + (lines[0] + "," + Join(lines[1..], ","));
    }
  }

  predicate SpellsAlone(ps: Parsers, elem: string, ip: Addr) {
    ps.addr(elem).Some? && Zone(ps.addr(elem).value) == "" && Unmap(ps.addr(elem).value) == ip
  }

  // An address taken from the header is one of the field's elements, spelled as an address alone and
  // without a zone, in a field of at most 64 elements.
  lemma ForwardedAddressIsListed(ps: Parsers, isPublic: Addr -> bool, peer: Addr, fields: Fields, trusted: seq<Prefix>,
                                 res: ClientResolution)
    requires Resolves(ps, isPublic, peer, fields, trusted, res) && res.forwarded
    ensures var es := Elements(TokenList, Join(fields.xff, ","));
            |es| <= MAX_HOPS && exists k :: 0 <= k < |es| && SpellsAlone(ps, es[k], res.ip)
  {
    hide Trusted, Elements, Join, ReadForwarded, Public, Present;
    var xff := ReadList(ps, fields.xff);
    var k :| Chosen(xff, trusted, k) && res.ip == xff[k].addr;
    assert xff[k] == ParseListEntry(ps, Elements(TokenList, Join(fields.xff, ","))[k]);
  }

  // The spellings neither header forbids, quoted, bracketed or both, name the same address, and none
  // of them is an address alone.
  lemma OtherSpellings(ps: Parsers, text: string, a: Addr)
    requires Lawful(ps.addr) && ps.addr(text) == Some(a) && Zone(a) == ""
    requires ps.addrPort(text).None? && ps.addrPort("[" + text + "]").None?
    ensures ParseListEntry(ps, "\"" + text + "\"") == ListEntry(Unmap(a), false)
    ensures ParseListEntry(ps, "[" + text + "]") == ListEntry(Unmap(a), false)
    ensures ParseListEntry(ps, "\"" + ("[" + text + "]") + "\"") == ListEntry(Unmap(a), false)
  {
    hide *;
    var bracketed := "[" + text + "]";
    LiteralBytes(ps.addr, text);
    TrimQuotes(text, text);
    TrimQuotes(text, bracketed);
    SpellingReads(ps, text, "\"" + text + "\"", text, a);
    SpellingReads(ps, text, bracketed, bracketed, a);
    SpellingReads(ps, text, "\"" + bracketed + "\"", bracketed, a);
  }

  lemma TrimQuotes(text: string, e: string)
    requires All(text, AddrByte) && (e == text || e == "[" + text + "]")
    ensures Trim("\"" + e + "\"", IsQuote) == e
    ensures e != text ==> Trim(e, IsQuote) == e
  {
    hide Trim;
    TrimUnique("\"", e, "\"", IsQuote);
    TrimUnique("", e, "", IsQuote);
    assert "" + e + "" == e;
  }

  // With a port, in quotes or not, an element names its address and is none alone; an address with a
  // zone names nothing.
  lemma PortAndZoneSpellings(ps: Parsers, text: string, a: Addr)
    requires text != "" && text[0] != '"' && text[|text| - 1] != '"'
    ensures ps.addr(text).None? && ps.addrPort(text) == Some(a) && Zone(a) == "" ==>
              ParseListEntry(ps, text) == ListEntry(Unmap(a), false)
    ensures ps.addr("\"" + text + "\"").None? && ps.addrPort(text) == Some(a) && Zone(a) == "" ==>
              ParseListEntry(ps, "\"" + text + "\"") == ListEntry(Unmap(a), false)
    ensures ps.addr(text) == Some(a) && Zone(a) != "" ==> ParseListEntry(ps, text) == ZERO_ENTRY
  {
    hide Trim;
    TrimUnique("\"", text, "\"", IsQuote);
    TrimUnique("", text, "", IsQuote);
    assert "" + text + "" == text;
  }

  // A literal without a zone is hex digits, ':' and '.'.
  lemma LiteralBytes(parse: string -> Option<Addr>, text: string)
    requires Lawful(parse) && parse(text).Some? && Zone(parse(text).value) == ""
    ensures All(text, AddrByte)
  {}

  lemma SpellingReads(ps: Parsers, text: string, elem: string, inner: string, a: Addr)
    requires Lawful(ps.addr) && ps.addr(text) == Some(a) && Zone(a) == "" && All(text, AddrByte)
    requires elem != "" && (elem[0] == '"' || elem[0] == '[')
    requires inner == text || inner == "[" + text + "]"
    requires ps.addrPort(inner).None?
    requires Trim(elem, IsQuote) == inner
    ensures ParseListEntry(ps, elem) == ListEntry(Unmap(a), false)
  {
    hide Trim;
    if inner == text {
      assert CutPrefix(inner, "[").0 == text;
      assert CutSuffix(text, "]") == text;
    } else {
      assert inner[1..] == text + "]";
      assert (text + "]")[..|text|] == text;
    }
  }
}
