/**
 csp.go: the scanner that finds inline script and style elements, against a naive reading of the
 same rule: the first position where the tag stands, position by position.
 */
module Csp {
  import opened Text
  import opened AsciiFold

  predicate IsSpace(c: char) { c == ' ' || c == '\t' || c == '\n' || c == '\r' || c as int == 12 }

  predicate IsBoundary(c: char) { c == '>' || c == '/' || IsSpace(c) }

  // ---------- the naive rule ----------

  // The first position of [from, hi) where p holds, or -1.
  function FirstFrom(p: int -> bool, from: nat, hi: nat): (r: int)
    ensures -1 <= r
    ensures r >= 0 ==> from <= r < hi && p(r)
    ensures forall k :: from <= k < (if r < 0 then hi else r) ==> !p(k)
    decreases hi - from
  {
    if from >= hi then -1 else if p(from) then from else FirstFrom(p, from + 1, hi)
  }

  lemma FirstIs(p: int -> bool, from: nat, hi: nat, r: int)
    requires r < 0 || (from <= r < hi && p(r))
    requires forall k :: from <= k < (if r < 0 then hi else r) ==> !p(k)
    ensures FirstFrom(p, from, hi) == if r < 0 then -1 else r
  {}

  // needle stands at i, letters in any case.
  predicate FoldAt(b: string, i: int, needle: string) {
    0 <= i && i + |needle| <= |b| && Lower(b[i..i + |needle|]) == needle
  }

  predicate OpenAt(b: string, i: int, needle: string) {
    FoldAt(b, i, needle) && (i + |needle| >= |b| || IsBoundary(b[i + |needle|]))
  }

  predicate CloseAt(b: string, i: int, needle: string) {
    FoldAt(b, i, needle) && i + |needle| < |b| && IsBoundary(b[i + |needle|])
  }

  // The quote a tag is inside of after the bytes of s.
  function QuoteAfter(s: string, quote: Option<char>): Option<char> {
    if s == "" then quote
    else QuoteAfter(s[1..], QuoteStep(quote, s[0]))
  }

  function QuoteStep(quote: Option<char>, c: char): Option<char> {
    if quote.Some? then (if c == quote.value then None else quote)
    else if c == '"' || c == '\'' then Some(c) else None
  }

  predicate GtAt(b: string, from: nat, i: int) {
    from <= i < |b| && b[i] == '>' && QuoteAfter(b[from..i], None) == None
  }

  function NextOpen(b: string, from: nat, needle: string): int {
    FirstFrom(i => OpenAt(b, i, needle), from, |b|)
  }

  function NextClose(b: string, from: nat, needle: string): int {
    FirstFrom(i => CloseAt(b, i, needle), from, |b|)
  }

  function NextGt(b: string, from: nat): int {
    FirstFrom(i => GtAt(b, from, i), from, |b|)
  }

  datatype Span = Span(attrs: string, content: string)

  function Spans(b: string, from: nat, tag: string): seq<Span>
    decreases if from <= |b| then |b| - from else 0
  {
    var open := NextOpen(b, from, "<" + tag);
    if open < 0 then []
    else
      var attrs := open + |"<" + tag|;
      var gt := NextGt(b, attrs);
      if gt < 0 then []
      else
        var close := NextClose(b, gt + 1, "</" + tag);
        if close < 0 then []
        else [Span(b[attrs..gt], b[gt + 1..close])] + Spans(b, close + |"</" + tag|, tag)
  }

  // The attribute name "src" stands at i, with an '=' after optional white space.
  ghost predicate SrcAt(attrs: string, i: int) {
    && FoldAt(attrs, i, "src")
    && exists j :: i + 3 <= j < |attrs| && attrs[j] == '=' && forall k :: i + 3 <= k < j ==> IsSpace(attrs[k])
  }

  // Whether a name may start after the bytes of s: at the front and after white space outside quotes.
  function AtName(s: string): bool {
    if s == "" then true
    else
      var last, before := s[|s| - 1], s[..|s| - 1];
      if QuoteAfter(before, None).Some? then AtName(before)
      else if last == '"' || last == '\'' then false
      else IsSpace(last)
  }

  ghost predicate HasSrc(attrs: string) {
    exists i :: 0 <= i < |attrs| && QuoteAfter(attrs[..i], None) == None && AtName(attrs[..i]) && SrcAt(attrs, i)
  }

  // ---------- the scanners ----------

  // A needle whose first byte does not occur again, as "<script" and "</script" are.
  predicate HeadOnly(needle: string) {
    && needle != "" && needle[0] == '<'
    && forall k :: 0 < k < |needle| ==> needle[k] != '<'
  }

  predicate IsTag(tag: string) { tag != "" && forall k :: 0 <= k < |tag| ==> 'a' <= tag[k] <= 'z' }

  lemma FoldAtByte(b: string, i: int, needle: string, k: int)
    requires FoldAt(b, i, needle) && 0 <= k < |needle|
    ensures LowerASCII(b[i + k]) == needle[k]
  {
    assert Lower(b[i..i + |needle|])[k] == LowerASCII(b[i..i + |needle|][k]);
  }

  // Two occurrences never overlap, so none is lost by skipping a whole needle.
  lemma NoOverlap(b: string, i: int, j: int, needle: string)
    requires HeadOnly(needle) && FoldAt(b, i, needle) && i < j < i + |needle|
    ensures !FoldAt(b, j, needle)
  {
    hide FoldAt;
    FoldAtByte(b, i, needle, j - i);
    if FoldAt(b, j, needle) { FoldAtByte(b, j, needle, 0); }
  }

  method HasFoldPrefix(b: string, needle: string) returns (r: bool)
    ensures r <==> FoldAt(b, 0, needle)
  {
    if |b| < |needle| {
      return false;
    }
    for i := 0 to |needle|
      invariant forall k :: 0 <= k < i ==> LowerASCII(b[k]) == needle[k]
    {
      if LowerASCII(b[i]) != needle[i] {
        if FoldAt(b, 0, needle) { FoldAtByte(b, 0, needle, i); }
        return false;
      }
    }
    assert Lower(b[0..|needle|]) == needle;
    return true;
  }

  lemma FoldAtSuffix(b: string, i: nat, needle: string)
    requires i <= |b|
    ensures FoldAt(b[i..], 0, needle) == FoldAt(b, i, needle)
  {
    if i + |needle| <= |b| { assert b[i..][0..|needle|] == b[i..i + |needle|]; }
  }

  method IndexFoldASCII(b: string, from: nat, needle: string) returns (r: int)
    ensures -1 <= r && (r >= 0 ==> from <= r && FoldAt(b, r, needle))
    ensures forall k :: from <= k && (r < 0 || k < r) ==> !FoldAt(b, k, needle)
  {
    hide FoldAt;
    var i := from;
    while i <= |b| - |needle|
      invariant from <= i
      invariant forall k :: from <= k < i ==> !FoldAt(b, k, needle)
    {
      FoldAtSuffix(b, i, needle);
      var here := HasFoldPrefix(b[i..], needle);
      if here {
        return i;
      }
      i := i + 1;
    }
    forall k | i <= k ensures !FoldAt(b, k, needle) { TooLate(b, k, needle); }
    return -1;
  }

  lemma TooLate(b: string, k: int, needle: string)
    requires k > |b| - |needle|
    ensures !FoldAt(b, k, needle)
  {}

  method FindElementOpen(html: string, from: nat, needle: string) returns (r: int)
    requires HeadOnly(needle)
    ensures r == NextOpen(html, from, needle)
  {
    hide FoldAt;
    var i := from;
    while true
      invariant from <= i
      invariant forall k :: from <= k < i ==> !OpenAt(html, k, needle)
      decreases |html| - i
    {
      var s := IndexFoldASCII(html, i, needle);
      if s < 0 {
        FirstIs(k => OpenAt(html, k, needle), from, |html|, -1);
        return -1;
      }
      FoldAtFits(html, s, needle);
      var after := s + |needle|;
      if after >= |html| || IsBoundary(html[after]) {
        FirstIs(k => OpenAt(html, k, needle), from, |html|, s);
        return s;
      }
      forall k | s < k < after ensures !OpenAt(html, k, needle) { NoOverlap(html, s, k, needle); }
      i := after;
    }
  }

  lemma FoldAtFits(b: string, i: int, needle: string)
    requires FoldAt(b, i, needle)
    ensures 0 <= i && i + |needle| <= |b|
  {}

  method FindElementClose(html: string, from: nat, needle: string) returns (r: int)
    requires HeadOnly(needle)
    ensures r == NextClose(html, from, needle)
  {
    hide FoldAt;
    var i := from;
    while true
      invariant from <= i
      invariant forall k :: from <= k < i ==> !CloseAt(html, k, needle)
      decreases |html| - i
    {
      var s := IndexFoldASCII(html, i, needle);
      if s < 0 {
        FirstIs(k => CloseAt(html, k, needle), from, |html|, -1);
        return -1;
      }
      FoldAtFits(html, s, needle);
      var after := s + |needle|;
      if after < |html| && IsBoundary(html[after]) {
        FirstIs(k => CloseAt(html, k, needle), from, |html|, s);
        return s;
      }
      forall k | s < k < after ensures !CloseAt(html, k, needle) { NoOverlap(html, s, k, needle); }
      i := after;
    }
  }

  lemma {:induction false} QuoteAppend(s: string, t: string, quote: Option<char>)
    ensures QuoteAfter(s + t, quote) == QuoteAfter(t, QuoteAfter(s, quote))
  {
    if s == "" {
      assert s + t == t;
    } else {
      assert (s + t)[1..] == s[1..] + t;
      QuoteAppend(s[1..], t, QuoteStep(quote, s[0]));
    }
  }

  lemma QuoteNext(b: string, from: nat, i: nat)
    requires from <= i < |b|
    ensures QuoteAfter(b[from..i + 1], None) == QuoteStep(QuoteAfter(b[from..i], None), b[i])
  {
    assert b[from..i + 1] == b[from..i] + [b[i]];
    QuoteAppend(b[from..i], [b[i]], None);
    var q := QuoteAfter(b[from..i], None);
    assert [b[i]][1..] == "";
    assert QuoteAfter([b[i]], q) == QuoteStep(q, b[i]);
  }

  method OpenTagEnd(html: string, from: nat) returns (r: int)
    requires from <= |html|
    ensures r == NextGt(html, from)
  {
    hide QuoteAfter;
    var quote: Option<char> := None;
    assert html[from..from] == "";
    QuoteNothing();
    var i := from;
    while i < |html|
      invariant from <= i <= |html|
      invariant quote == QuoteAfter(html[from..i], None)
      invariant forall k :: from <= k < i ==> !GtAt(html, from, k)
    {
      var c := html[i];
      QuoteNext(html, from, i);
      if quote.Some? {
        if c == quote.value {
          quote := None;
        }
      } else if c == '"' || c == '\'' {
        quote := Some(c);
      } else if c == '>' {
        FirstIs(k => GtAt(html, from, k), from, |html|, i);
        return i;
      }
      i := i + 1;
    }
    FirstIs(k => GtAt(html, from, k), from, |html|, -1);
    return -1;
  }

  lemma QuoteNothing()
    ensures QuoteAfter("", None) == None
  {}

  method MatchesSrcHere(attrs: string, i: nat) returns (r: bool)
    requires i <= |attrs|
    ensures r <==> SrcAt(attrs, i)
  {
    var prefix := HasFoldPrefix(attrs[i..], "src");
    FoldAtSuffix(attrs, i, "src");
    if !prefix {
      return false;
    }
    var j := i + |"src"|;
    while j < |attrs| && IsSpace(attrs[j])
      invariant i + 3 <= j <= |attrs|
      invariant forall k :: i + 3 <= k < j ==> IsSpace(attrs[k])
    {
      j := j + 1;
    }
    return j < |attrs| && attrs[j] == '=';
  }

  lemma AtNameNext(s: string, i: nat)
    requires i < |s|
    ensures AtName(s[..i + 1]) ==
            if QuoteAfter(s[..i], None).Some? then AtName(s[..i])
            else !(s[i] == '"' || s[i] == '\'') && IsSpace(s[i])
  {
    assert s[..i + 1][..i] == s[..i];
  }

  lemma SrcIsNoSpace(attrs: string, i: nat)
    requires SrcAt(attrs, i)
    ensures i < |attrs| && !IsSpace(attrs[i]) && attrs[i] != '"' && attrs[i] != '\''
  {
    FoldAtByte(attrs, i, "src", 0);
  }

  method HasSrcAttr(attrs: string) returns (r: bool)
    ensures r <==> HasSrc(attrs)
  {
    hide QuoteAfter, AtName, SrcAt;
    var quote: Option<char> := None;
    var atName := true;
    assert attrs[..0] == "" && attrs[0..0] == "";
    NameNothing();
    for i := 0 to |attrs|
      invariant quote == QuoteAfter(attrs[..i], None) && atName == AtName(attrs[..i])
      invariant forall k :: 0 <= k < i && QuoteAfter(attrs[..k], None) == None && AtName(attrs[..k]) ==>
                  !SrcAt(attrs, k)
    {
      var c := attrs[i];
      assert attrs[0..i] == attrs[..i] && attrs[0..i + 1] == attrs[..i + 1];
      QuoteNext(attrs, 0, i);
      AtNameNext(attrs, i);
      if SrcAt(attrs, i) { SrcIsNoSpace(attrs, i); }
      if quote.Some? {
        if c == quote.value {
          quote := None;
        }
      } else if c == '"' || c == '\'' {
        quote, atName := Some(c), false;
      } else if IsSpace(c) {
        atName := true;
      } else {
        var here := false;
        if atName {
          here := MatchesSrcHere(attrs, i);
        }
        if here {
          return true;
        }
        atName := false;
      }
    }
    return false;
  }

  lemma NameNothing()
    ensures QuoteAfter("", None) == None && AtName("")
  {}

  // What is hashed: the content of each element, minus the scripts with a src attribute.
  ghost function Hashed(spans: seq<Span>, skipSrc: bool, hash: string -> string): seq<string> {
    if spans == [] then []
    else
      (if skipSrc && HasSrc(spans[0].attrs) then [] else [hash(spans[0].content)]) + Hashed(spans[1..], skipSrc, hash)
  }

  lemma TagNeedles(tag: string)
    requires IsTag(tag)
    ensures HeadOnly("<" + tag) && HeadOnly("</" + tag)
  {
    assert forall k :: 1 <= k < |"<" + tag| ==> ("<" + tag)[k] == tag[k - 1];
    assert forall k :: 2 <= k < |"</" + tag| ==> ("</" + tag)[k] == tag[k - 2];
  }

  // inlineElementHashes; skipSrc is the script scanner's skip, absent for styles.
  method InlineElementHashes(html: string, tag: string, skipSrc: bool, hash: string -> string)
    returns (out: seq<string>)
    requires IsTag(tag)
    ensures out == Hashed(Spans(html, 0, tag), skipSrc, hash)
  {
    hide FirstFrom, HasSrc, Spans, NextOpen, NextGt, NextClose, Hashed;
    TagNeedles(tag);
    var openTag, closeTag := "<" + tag, "</" + tag;
    out := [];
    var i := 0;
    NothingHashed(skipSrc, hash, Spans(html, 0, tag));
    while i < |html|
      invariant Hashed(Spans(html, 0, tag), skipSrc, hash) == out + Hashed(Spans(html, i, tag), skipSrc, hash)
      decreases |html| - i
    {
      SpansStep(html, i, tag);
      var open := FindElementOpen(html, i, openTag);
      if open < 0 {
        return;
      }
      OpenFits(html, i, openTag);
      var gt := OpenTagEnd(html, open + |openTag|);
      if gt < 0 {
        return;
      }
      GtFits(html, open + |openTag|);
      var closeIdx := FindElementClose(html, gt + 1, closeTag);
      if closeIdx < 0 {
        return;
      }
      CloseFits(html, gt + 1, closeTag);
      var skip := false;
      if skipSrc {
        skip := HasSrcAttr(html[open + |openTag|..gt]);
      }
      HashedStep(out, Span(html[open + |openTag|..gt], html[gt + 1..closeIdx]),
                 Spans(html, closeIdx + |closeTag|, tag), skipSrc, hash);
      if !skip {
        out := out + [hash(html[gt + 1..closeIdx])];
      }
      i := closeIdx + |closeTag|;
    }
    PastTheEnd(html, i, tag);
    NothingHashed(skipSrc, hash, []);
  }

  lemma NothingHashed(skipSrc: bool, hash: string -> string, spans: seq<Span>)
    ensures Hashed([], skipSrc, hash) == []
    ensures [] + Hashed(spans, skipSrc, hash) == Hashed(spans, skipSrc, hash)
  {}

  lemma HashedStep(out: seq<string>, span: Span, spans: seq<Span>, skipSrc: bool, hash: string -> string)
    ensures out + Hashed([span] + spans, skipSrc, hash) ==
            (if skipSrc && HasSrc(span.attrs) then out else out + [hash(span.content)]) + Hashed(spans, skipSrc, hash)
  {
    hide HasSrc;
    assert ([span] + spans)[1..] == spans;
  }

  // One element of the naive reading.
  lemma SpansStep(b: string, from: nat, tag: string)
    ensures var open := NextOpen(b, from, "<" + tag);
            if open < 0 then Spans(b, from, tag) == []
            else
              var attrs := open + |"<" + tag|;
              var gt := NextGt(b, attrs);
              if gt < 0 then Spans(b, from, tag) == []
              else
                var close := NextClose(b, gt + 1, "</" + tag);
                if close < 0 then Spans(b, from, tag) == []
                else
                  && attrs <= gt < close < |b|
                  && Spans(b, from, tag) == [Span(b[attrs..gt], b[gt + 1..close])] + Spans(b, close + |"</" + tag|, tag)
  {
    hide FirstFrom;
  }

  lemma OpenFits(b: string, from: nat, needle: string)
    requires NextOpen(b, from, needle) >= 0
    ensures from <= NextOpen(b, from, needle) && NextOpen(b, from, needle) + |needle| <= |b|
  {
    var i := NextOpen(b, from, needle);
    assert OpenAt(b, i, needle);
  }

  lemma GtFits(b: string, from: nat)
    requires NextGt(b, from) >= 0
    ensures from <= NextGt(b, from) < |b|
  {}

  lemma CloseFits(b: string, from: nat, needle: string)
    requires NextClose(b, from, needle) >= 0
    ensures from <= NextClose(b, from, needle) && NextClose(b, from, needle) + |needle| < |b|
  {
    var i := NextClose(b, from, needle);
    assert CloseAt(b, i, needle);
  }

  lemma PastTheEnd(b: string, from: nat, tag: string)
    requires from >= |b|
    ensures Spans(b, from, tag) == []
  {}
}
