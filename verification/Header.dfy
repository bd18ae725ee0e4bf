/**
 Header maps and the edits gzip.go makes to them. A header maps canonical keys to value lists, as
 http.Header does.
 */
module Header {
  import opened Text
  import opened AsciiFold
  import opened FieldList

  type Header = map<string, seq<string>>

  const TRAILER_PREFIX := "Trailer:"

  function Values(h: Header, key: string): seq<string> { if key in h then h[key] else [] }

  function Get(h: Header, key: string): string {
    if key in h && h[key] != [] then h[key][0] else ""
  }

  function Set(h: Header, key: string, value: string): Header { h[key := [value]] }

  function Add(h: Header, key: string, value: string): Header { h[key := Values(h, key) + [value]] }

  function Del(h: Header, key: string): Header { map k | k in h && k != key :: h[k] }

  // http.CanonicalHeaderKey: a token gets an upper-case letter at the front and after each '-'.
  function CanonicalKey(name: string): string {
    if All(name, TokenByte) then Canon(name, true) else name
  }

  function Canon(name: string, upper: bool): string {
    if name == "" then ""
    else [if upper then UpperASCII(name[0]) else LowerASCII(name[0])] + Canon(name[1..], name[0] == '-')
  }

  function UpperASCII(c: char): char {
    if 'a' <= c <= 'z' then (c as int - ('a' as int - 'A' as int)) as char else c
  }

  predicate IsTrailerKey(key: string) { HasPrefix(key, TRAILER_PREFIX) }

  // The header block: a key under TrailerPrefix is never a header line.
  function Lines(h: Header): Header { map k | k in h && !IsTrailerKey(k) :: h[k] }

  lemma {:induction false} CanonFolds(a: string, b: string, upper: bool)
    requires Lower(a) == Lower(b)
    ensures Lower(Canon(a, upper)) == Lower(a) && Canon(a, upper) == Canon(b, upper)
    ensures Canon(Canon(a, upper), upper) == Canon(a, upper)
  {
    assert |Lower(a)| == |a| && |Lower(b)| == |b|;
    if a != "" {
      assert Lower(a)[0] == LowerASCII(a[0]) && Lower(b)[0] == LowerASCII(b[0]);
      assert Lower(a[1..]) == Lower(a)[1..] && Lower(b[1..]) == Lower(b)[1..];
      CanonFolds(a[1..], b[1..], a[0] == '-');
      assert Canon(a, upper)[1..] == Canon(a[1..], a[0] == '-');
    }
  }

  // The canonical key only changes letter case, and is one for all spellings of a token.
  lemma CanonicalKeyMeaning(a: string, b: string)
    ensures EqualFold(CanonicalKey(a), a)
    ensures All(a, TokenByte) && All(b, TokenByte) && EqualFold(a, b) ==> CanonicalKey(a) == CanonicalKey(b)
  {
    hide Lower, Canon, TokenByte;
    CanonFolds(a, a, true);
    if EqualFold(a, b) { CanonFolds(a, b, true); }
  }

  // ---------- Vary ----------

  predicate VariesOnCoding(h: Header) {
    exists e :: e in Elements(TokenList, Join(Values(h, "Vary"), ",")) && CoversCoding(e)
  }

  predicate CoversCoding(e: string) { e == "*" || EqualFold(e, "Accept-Encoding") }

  function WithVary(h: Header): Header {
    if VariesOnCoding(h) then h else Add(h, "Vary", "Accept-Encoding")
  }

  // addVaryAcceptEncoding
  method AddVaryAcceptEncoding(h: Header) returns (r: Header)
    ensures r == WithVary(h)
  {
    hide Elements, EqualFold;
    var elems := Scan(Values(h, "Vary"), TokenList);
    for i := 0 to |elems|
      invariant forall k :: 0 <= k < i ==> !CoversCoding(elems[k])
    {
      var same := EqualASCIIFold(elems[i], "Accept-Encoding");
      if elems[i] == "*" || same {
        assert elems[i] in elems && CoversCoding(elems[i]);
        return h;
      }
    }
    return Add(h, "Vary", "Accept-Encoding");
  }

  // Vary then covers the coding, every element it had is still there in order, and adding it again
  // adds nothing.
  lemma VaryMeaning(h: Header)
    ensures VariesOnCoding(WithVary(h)) && WithVary(WithVary(h)) == WithVary(h)
    ensures Elements(TokenList, Join(Values(WithVary(h), "Vary"), ",")) ==
            Elements(TokenList, Join(Values(h, "Vary"), ",")) + if VariesOnCoding(h) then [] else ["Accept-Encoding"]
    ensures forall k :: k != "Vary" ==> (k in WithVary(h) <==> k in h) && (k in h ==> WithVary(h)[k] == h[k])
  {
    hide Elements, Lower, Join, Trim, FirstSeparator;
    var vs := Values(h, "Vary");
    if !VariesOnCoding(h) {
      TokenLinesReadApart(vs + ["Accept-Encoding"]);
      TokenLinesReadApart(vs);
      PerLineAppend(vs, "Accept-Encoding");
      CodingIsElement();
      var es := Elements(TokenList, Join(Values(WithVary(h), "Vary"), ","));
      assert "Accept-Encoding" in es by { assert es[|es| - 1] == "Accept-Encoding"; }
      assert EqualFold("Accept-Encoding", "Accept-Encoding");
    }
  }

  lemma CodingIsElement()
    ensures Elements(TokenList, "Accept-Encoding") == ["Accept-Encoding"]
  {
    hide Elements, Element, Ends, FirstSeparator;
    var e := "Accept-Encoding";
    NoCommaNoSeparator(e);
    OnlyPiece(TokenList, e);
    CodingTrims();
  }

  lemma CodingTrims()
    ensures Element("Accept-Encoding") == ["Accept-Encoding"]
  {
    var e := "Accept-Encoding";
    assert "" + e + "" == e;
    TrimUnique("", e, "", IsOws);
  }

  lemma {:induction false} PerLineAppend(lines: seq<string>, line: string)
    ensures ElementsPerLine(TokenList, lines + [line]) == ElementsPerLine(TokenList, lines) + Elements(TokenList, line)
  {
    hide Elements;
    if lines == [] {
      assert [line][1..] == [] && ([] + [line]) == [line];
    } else {
      assert (lines + [line])[1..] == lines[1..] + [line];
      PerLineAppend(lines[1..], line);
    }
  }

  // ---------- restoring the held header ----------

  function Declared(held: Header): set<string> {
    set e | e in Elements(TokenList, Join(Values(held, "Trailer"), ",")) :: CanonicalKey(e)
  }

  // The values h holds for the trailers held declares.
  function Trailers(h: Header, held: Header): Header {
    map k | k in h && k in Declared(held) :: h[k]
  }

  // held, with the TrailerPrefix keys as h has them.
  function Restored(h: Header, held: Header): Header {
    map k | k in h.Keys + held.Keys && (if IsTrailerKey(k) then k in h else k in held) ::
      if IsTrailerKey(k) then h[k] else held[k]
  }

  // The state of restoreHeader's three loops: trailers seen, keys of h left to drop, keys of held
  // left to put back.
  function TrailersOf(h: Header, names: seq<string>): Header {
    map k | k in h && (exists e :: e in names && CanonicalKey(e) == k) :: h[k]
  }

  function Dropping(h: Header, keys: set<string>): Header {
    map k | k in h && (k in keys || IsTrailerKey(k)) :: h[k]
  }

  function PuttingBack(h: Header, held: Header, keys: set<string>): Header {
    map k | k in h.Keys + held.Keys && (if IsTrailerKey(k) then k in h else k in held && k !in keys) ::
      if IsTrailerKey(k) then h[k] else held[k]
  }

  lemma TrailerStep(h: Header, names: seq<string>, name: string)
    ensures TrailersOf(h, names + [name]) ==
            if CanonicalKey(name) in h then TrailersOf(h, names)[CanonicalKey(name) := h[CanonicalKey(name)]]
            else TrailersOf(h, names)
  {
    hide CanonicalKey;
    var all := names + [name];
    assert forall e :: e in all <==> e in names || e == name;
  }

  lemma DropStep(h: Header, keys: set<string>, k: string)
    requires k in keys
    ensures Dropping(h, keys - {k}) == if IsTrailerKey(k) then Dropping(h, keys) else Del(Dropping(h, keys), k)
  {
    hide IsTrailerKey;
  }

  lemma PutStep(h: Header, held: Header, keys: set<string>, k: string)
    requires k in keys && k in held
    ensures PuttingBack(h, held, keys - {k}) ==
            if IsTrailerKey(k) then PuttingBack(h, held, keys) else PuttingBack(h, held, keys)[k := held[k]]
  {
    hide IsTrailerKey;
  }

  lemma RestoreEnds(h: Header, held: Header, names: seq<string>)
    requires names == Elements(TokenList, Join(Values(held, "Trailer"), ","))
    ensures TrailersOf(h, []) == map[] && TrailersOf(h, names) == Trailers(h, held)
    ensures Dropping(h, h.Keys) == h && Dropping(h, {}) == PuttingBack(h, held, held.Keys)
    ensures PuttingBack(h, held, {}) == Restored(h, held)
  {
    hide Elements, Join, CanonicalKey, IsTrailerKey;
  }

  // restoreHeader
  method RestoreHeader(h: Header, held: Header) returns (r: Header, trailers: Header)
    ensures r == Restored(h, held) && trailers == Trailers(h, held)
  {
    hide Elements, Join, CanonicalKey, IsTrailerKey, TrailersOf, Dropping, PuttingBack, Restored, Trailers, Del;
    var names := Scan(Values(held, "Trailer"), TokenList);
    RestoreEnds(h, held, names);
    trailers := map[];
    for i := 0 to |names|
      invariant trailers == TrailersOf(h, names[..i])
    {
      var name := CanonicalKey(names[i]);
      assert names[..i + 1] == names[..i] + [names[i]];
      TrailerStep(h, names[..i], names[i]);
      if name in h {
        trailers := trailers[name := h[name]];
      }
    }
    assert names[..|names|] == names;
    r := h;
    var keys := h.Keys;
    while keys != {}
      invariant keys <= h.Keys && r == Dropping(h, keys)
      decreases |keys|
    {
      var k :| k in keys;
      DropStep(h, keys, k);
      keys := keys - {k};
      if !IsTrailerKey(k) {
        r := Del(r, k);
      }
    }
    keys := held.Keys;
    while keys != {}
      invariant keys <= held.Keys && r == PuttingBack(h, held, keys)
      decreases |keys|
    {
      var k :| k in keys;
      PutStep(h, held, keys, k);
      keys := keys - {k};
      if !IsTrailerKey(k) {
        r := r[k := held[k]];
      }
    }
  }

  // ---------- the compressed header ----------

  function Marked(h: Header): Header {
    var h := Del(Del(Set(h, "Content-Encoding", "gzip"), "Content-Length"), "Accept-Ranges");
    var etag := Get(h, "Etag");
    if etag != "" && !HasPrefix(etag, "W/") then Set(h, "Etag", "W/" + etag) else h
  }

  lemma PlainKeys()
    ensures !IsTrailerKey("Content-Encoding") && !IsTrailerKey("Content-Length") && !IsTrailerKey("Accept-Ranges")
    ensures !IsTrailerKey("Etag") && !IsTrailerKey("Vary") && !IsTrailerKey("Content-Type")
    ensures !IsTrailerKey("X-Content-Type-Options")
  {
    assert TRAILER_PREFIX[0] == 'T';
  }

  // What a commit sends: restoring gives back exactly the held header lines, and marking commutes
  // with leaving the trailer keys out.
  lemma RestoredLines(h: Header, held: Header)
    ensures Lines(Restored(h, held)) == Lines(held)
    ensures Lines(Marked(Restored(h, held))) == Marked(Lines(held))
  {
    MarkedLines(Restored(h, held));
    assert Lines(Restored(h, held)) == Lines(held);
  }

  lemma MarkedLines(h: Header)
    ensures Lines(Marked(h)) == Marked(Lines(h))
  {
    hide IsTrailerKey;
    PlainKeys();
    DelLines(h, "Content-Length");
    var a, b := Set(h, "Content-Encoding", "gzip"), Set(Lines(h), "Content-Encoding", "gzip");
    assert Lines(a) == b;
    DelLines(a, "Content-Length");
    DelLines(Del(a, "Content-Length"), "Accept-Ranges");
    var c := Del(Del(a, "Content-Length"), "Accept-Ranges");
    assert Lines(c) == Del(Del(b, "Content-Length"), "Accept-Ranges");
    assert Get(Lines(c), "Etag") == Get(c, "Etag");
    assert Lines(Set(c, "Etag", "W/" + Get(c, "Etag"))) == Set(Lines(c), "Etag", "W/" + Get(c, "Etag"));
  }

  lemma DelLines(h: Header, key: string)
    ensures Lines(Del(h, key)) == Del(Lines(h), key)
  {}

  // A compressed header says gzip, names no identity length or ranges, and has no strong validator.
  lemma MarkedMeaning(h: Header)
    ensures Get(Marked(h), "Content-Encoding") == "gzip"
    ensures "Content-Length" !in Marked(h) && "Accept-Ranges" !in Marked(h)
    ensures Get(Marked(h), "Etag") == "" || HasPrefix(Get(Marked(h), "Etag"), "W/")
    ensures Get(Marked(h), "Etag") ==
            if Get(h, "Etag") == "" || HasPrefix(Get(h, "Etag"), "W/") then Get(h, "Etag") else "W/" + Get(h, "Etag")
    ensures forall k :: k !in {"Content-Encoding", "Content-Length", "Accept-Ranges", "Etag"} ==>
                          (k in Marked(h) <==> k in h) && (k in h ==> Marked(h)[k] == h[k])
  {}

  // markCompressed
  method MarkCompressed(h: Header) returns (r: Header)
    ensures r == Marked(h)
  {
    r := Set(h, "Content-Encoding", "gzip");
    r := Del(r, "Content-Length");
    r := Del(r, "Accept-Ranges");
    var etag := Get(r, "Etag");
    if etag != "" && !HasPrefix(etag, "W/") {
      r := Set(r, "Etag", "W/" + etag);
    }
  }
}
