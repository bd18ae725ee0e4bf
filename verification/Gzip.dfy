/** gzip.go: whether a request offers gzip, and whether a response is one gzip may compress. */
module Gzip {
  import opened Text
  import opened AsciiFold
  import opened FieldList
  import opened Header

  // ---------- Accept-Encoding (section 12.5.3 of RFC 9110) ----------

  // zeroQValue
  predicate ZeroQValue(v: string) {
    var (frac, zero) := CutPrefix(v, "0");
    if !zero then false
    else if frac == "" then true
    else
      var (digits, dot) := CutPrefix(frac, ".");
      dot && |digits| <= 3 && Trim(digits, c => c == '0') == ""
  }

  lemma AllZeros(s: string)
    ensures Trim(s, c => c == '0') == "" <==> forall i :: 0 <= i < |s| ==> s[i] == '0'
  {
    var p := c => c == '0';
    var left, right := TrimSplits(s, p);
    if Trim(s, p) == "" {
      assert s == left + right;
    }
    if forall i :: 0 <= i < |s| ==> s[i] == '0' {
      TrimUnique(s, "", "", p);
      assert s + "" + "" == s;
    }
  }

  // A zero weight is one of five spellings (section 12.4.2).
  lemma ZeroQExactly(v: string)
    ensures ZeroQValue(v) <==> v in ["0", "0.", "0.0", "0.00", "0.000"]
  {
    hide Trim;
    if |v| >= 2 { AllZeros(v[2..]); }
    ZeroSpelled(v);
  }

  lemma ZeroSpelled(v: string)
    ensures v in ["0", "0.", "0.0", "0.00", "0.000"] <==>
            || v == "0"
            || (2 <= |v| <= 5 && v[0] == '0' && v[1] == '.' && forall i :: 0 <= i < |v[2..]| ==> v[2..][i] == '0')
  {
    if 2 <= |v| <= 5 && v[0] == '0' && v[1] == '.' && forall i :: 0 <= i < |v[2..]| ==> v[2..][i] == '0' {
      forall i | 2 <= i < |v| ensures v[i] == '0' { assert v[i] == v[2..][i - 2]; }
      if |v| == 2 { assert v == "0."; }
      else if |v| == 3 { assert v == "0.0"; }
      else if |v| == 4 { assert v == "0.00"; }
      else { assert v == "0.000"; }
    }
  }

  function Params(s: string): (r: seq<string>)
    ensures |r| > 0
    decreases |s|
  {
    var cut := CutAt(s, ';');
    if cut.found then [cut.before] + Params(cut.after) else [s]
  }

  predicate IsWeight(param: string) { EqualFold(Trim(CutAt(param, '=').before, IsOws), "q") }

  function WeightOf(param: string): string { Trim(CutAt(param, '=').after, IsOws) }

  predicate FirstWeight(params: seq<string>, i: nat) {
    i < |params| && IsWeight(params[i]) && forall k :: 0 <= k < i ==> !IsWeight(params[k])
  }

  function CodingOf(elem: string): string { Trim(CutAt(elem, ';').before, IsOws) }

  // An element offers its coding unless its first weight is a zero.
  ghost predicate Offers(elem: string) {
    forall i: nat :: FirstWeight(Params(CutAt(elem, ';').after), i) ==>
      !ZeroQValue(WeightOf(Params(CutAt(elem, ';').after)[i]))
  }

  // encodingOffer
  method EncodingOffer(elem: string) returns (coding: string, offered: bool)
    ensures coding == CodingOf(elem)
    ensures offered <==> Offers(elem)
  {
    hide EqualFold, ZeroQValue, Params, Trim, CutAt;
    var cut := CutAt(elem, ';');
    coding := Trim(cut.before, IsOws);
    var params := Params(cut.after);
    for i := 0 to |params|
      invariant forall k :: 0 <= k < i ==> !IsWeight(params[k])
    {
      var pair := CutAt(params[i], '=');
      var isQ := EqualASCIIFold(Trim(pair.before, IsOws), "q");
      if isQ {
        assert FirstWeight(params, i);
        return coding, !ZeroQValue(Trim(pair.after, IsOws));
      }
    }
    return coding, true;
  }

  predicate NamesGzip(elem: string) {
    EqualFold(CodingOf(elem), "gzip") || EqualFold(CodingOf(elem), "x-gzip")
  }

  predicate IsWildcard(elem: string) { !NamesGzip(elem) && CodingOf(elem) == "*" }

  ghost predicate FirstNamed(es: seq<string>, i: int) {
    0 <= i < |es| && NamesGzip(es[i]) && forall k :: 0 <= k < i ==> !NamesGzip(es[k])
  }

  ghost predicate LastWildcard(es: seq<string>, i: int) {
    0 <= i < |es| && IsWildcard(es[i]) && forall k :: i < k < |es| ==> !IsWildcard(es[k])
  }

  // The first element naming gzip decides; when none names it, the last "*" does.
  ghost predicate AcceptsGzip(es: seq<string>) {
    if exists i :: 0 <= i < |es| && NamesGzip(es[i]) then exists i :: FirstNamed(es, i) && Offers(es[i])
    else exists i :: LastWildcard(es, i) && Offers(es[i])
  }

  // acceptsGzip
  method ReadAcceptEncoding(lines: seq<string>) returns (r: bool)
    ensures r <==> AcceptsGzip(Elements(TokenList, Join(lines, ",")))
  {
    hide Elements, EqualFold, Offers, CodingOf;
    var es := Scan(lines, TokenList);
    var wildcard := false;
    ghost var star := -1;
    for i := 0 to |es|
      invariant forall k :: 0 <= k < i ==> !NamesGzip(es[k])
      invariant -1 <= star < i && (star < 0 ==> !wildcard)
      invariant star >= 0 ==> IsWildcard(es[star]) && (wildcard <==> Offers(es[star]))
      invariant forall k :: star < k < i ==> !IsWildcard(es[k])
    {
      var coding, offered := EncodingOffer(es[i]);
      var isGzip := EqualASCIIFold(coding, "gzip");
      var isXGzip := EqualASCIIFold(coding, "x-gzip");
      if isGzip || isXGzip {
        assert FirstNamed(es, i);
        assert forall k :: FirstNamed(es, k) ==> k == i;
        return offered;
      } else if coding == "*" {
        wildcard, star := offered, i;
      }
    }
    assert star >= 0 ==> LastWildcard(es, star);
    assert forall k :: LastWildcard(es, k) ==> k == star;
    return wildcard;
  }

  // ---------- candidates ----------

  // The parts of gzipConfig that decide, with mime.ParseMediaType as a parameter.
  datatype Config = Config(minBytes: int, types: seq<string>, mediaType: string -> Option<string>)

  // WithGzipMinBytes: the least threshold that is at least n and at least one.
  function MinBytes(n: int): (m: int)
    ensures m >= 1 && m >= n && (m == 1 || m == n)
  {
    if n < 1 then 1 else n
  }

  function LastIndexOf(s: string, c: char): (i: int)
    ensures -1 <= i < |s|
    ensures i >= 0 ==> s[i] == c
    ensures forall k :: i < k < |s| ==> s[k] != c
  {
    if s == "" then -1
    else if s[|s| - 1] == c then |s| - 1
    else LastIndexOf(s[..|s| - 1], c)
  }

  // The structured suffix of a media type, "+" included, or "" when its subtype has none.
  function Suffix(mediaType: string): string {
    var sub := CutAt(mediaType, '/').after;
    var i := LastIndexOf(sub, '+');
    if i >= 0 then sub[i..] else ""
  }

  predicate Compressible(cfg: Config, contentType: string) {
    var mt := cfg.mediaType(contentType);
    mt.Some? && exists i :: 0 <= i < |cfg.types| && (cfg.types[i] == mt.value || cfg.types[i] == Suffix(mt.value))
  }

  method IsCompressible(cfg: Config, contentType: string) returns (r: bool)
    ensures r <==> Compressible(cfg, contentType)
  {
    var mt := cfg.mediaType(contentType);
    if mt.None? {
      return false;
    }
    var suffix := Suffix(mt.value);
    for i := 0 to |cfg.types|
      invariant forall k :: 0 <= k < i ==> cfg.types[k] != mt.value && cfg.types[k] != suffix
    {
      if cfg.types[i] == mt.value || cfg.types[i] == suffix {
        return true;
      }
    }
    return false;
  }

  predicate Candidate(cfg: Config, status: int, h: Header) {
    && 200 <= status <= 599 && status != 204
    && Get(h, "Content-Encoding") == "" && Compressible(cfg, Get(h, "Content-Type"))
  }

  predicate CompressesStatus(status: int) { status != 206 && status != 304 }

  // The suffix is what follows the subtype's last '+', that '+' included.
  lemma SuffixMeaning(typ: string, sub: string, suffix: string)
    requires '/' !in typ && '+' !in suffix
    ensures Suffix(typ + "/" + sub + "+" + suffix) == "+" + suffix
    ensures '+' !in sub ==> Suffix(typ + "/" + sub) == ""
  {
    hide CutAt, LastIndexOf;
    SubtypeOf(typ, sub);
    SubtypeOf(typ, sub + "+" + suffix);
    assert typ + "/" + (sub + "+" + suffix) == typ + "/" + sub + "+" + suffix;
    LastPlus(sub, suffix);
  }

  lemma {:induction false} LastIndexAt(head: string, c: char, tail: string)
    requires c !in tail
    ensures LastIndexOf(head + [c] + tail, c) == |head|
  {
    var s := head + [c] + tail;
    if tail != "" {
      var t := tail[..|tail| - 1];
      assert s[..|s| - 1] == head + [c] + t;
      assert s[|s| - 1] == tail[|tail| - 1] && tail[|tail| - 1] in tail;
      LastIndexAt(head, c, t);
    }
  }

  lemma LastPlus(sub: string, suffix: string)
    requires '+' !in suffix
    ensures LastIndexOf(sub + "+" + suffix, '+') == |sub| && (sub + "+" + suffix)[|sub|..] == "+" + suffix
    ensures '+' !in sub ==> LastIndexOf(sub, '+') < 0
  {
    hide LastIndexOf;
    LastIndexAt(sub, '+', suffix);
  }

  lemma SubtypeOf(typ: string, sub: string)
    requires '/' !in typ
    ensures CutAt(typ + "/" + sub, '/') == Cut(typ, sub, true)
  {
    var s := typ + "/" + sub;
    assert s[|typ|] == '/' && s[..|typ|] == typ;
    IndexOfAt(s, '/', |typ|);
    assert s[|typ| + 1..] == sub;
  }
}
