/**
 csp.go: pages printed as text and elements, read back by the naive rule of Csp. Since the scanner
 equals that rule, it extracts exactly the bodies that were printed.
 */
module CspPage {
  import opened Text
  import opened AsciiFold
  import opened Csp

  // An attribute printed as a name alone or as name, '=' and a quoted value.
  datatype Attr = Attr(name: string, value: Option<QuotedText>)

  datatype QuotedText = QuotedText(quote: char, text: string)

  // open and close are the tag's name in any case, behind "<" and "</".
  datatype Elem = Elem(open: string, attrs: seq<Attr>, body: string, close: string)

  predicate NameByte(c: char) {
    !IsSpace(c) && c != '"' && c != '\'' && c != '=' && c != '>' && c != '/'
  }

  predicate ValidAttr(a: Attr) {
    && a.name != "" && All(a.name, NameByte)
    && (a.value.Some? ==>
         (a.value.value.quote == '"' || a.value.value.quote == '\'') && a.value.value.quote !in a.value.value.text)
  }

  predicate ValidAttrs(attrs: seq<Attr>) {
    forall i :: 0 <= i < |attrs| ==> ValidAttr(attrs[i])
  }

  function ValueText(v: Option<QuotedText>): string {
    if v.None? then "" else "=" + ([v.value.quote] + (v.value.text + [v.value.quote]))
  }

  function AttrText(a: Attr): string { " " + (a.name + ValueText(a.value)) }

  function AttrsText(attrs: seq<Attr>): string {
    if attrs == [] then "" else AttrText(attrs[0]) + AttrsText(attrs[1..])
  }

  function ElemText(e: Elem): string {
    e.open + (AttrsText(e.attrs) + (">" + (e.body + (e.close + ">"))))
  }

  // A body ends only at its own end tag; text opens no element.
  predicate ValidElem(e: Elem, tag: string) {
    && Lower(e.open) == "<" + tag && Lower(e.close) == "</" + tag
    && ValidAttrs(e.attrs) && NextClose(e.body, 0, "</" + tag) < 0
  }

  predicate ValidPage(texts: seq<string>, elems: seq<Elem>, tag: string) {
    && |texts| == |elems| + 1
    && (forall i :: 0 <= i < |texts| ==> NextOpen(texts[i], 0, "<" + tag) < 0)
    && (forall i :: 0 <= i < |elems| ==> ValidElem(elems[i], tag))
  }

  function PageText(texts: seq<string>, elems: seq<Elem>): string
    requires |texts| == |elems| + 1
  {
    if elems == [] then texts[0] else texts[0] + (ElemText(elems[0]) + PageText(texts[1..], elems[1..]))
  }

  function Printed(elems: seq<Elem>): seq<Span> {
    seq(|elems|, i requires 0 <= i < |elems| => Span(AttrsText(elems[i].attrs), elems[i].body))
  }

  // ---------- reading a suffix ----------

  lemma Shifted(p: int -> bool, q: int -> bool, from: nat, hi: nat)
    requires from <= hi && forall k :: 0 <= k < hi - from ==> q(k) == p(from + k)
    ensures FirstFrom(p, from, hi) == if FirstFrom(q, 0, hi - from) < 0 then -1 else from + FirstFrom(q, 0, hi - from)
  {
    var r := FirstFrom(q, 0, hi - from);
    forall k | from <= k < (if r < 0 then hi else from + r) ensures !p(k) { assert !q(k - from); }
    FirstIs(p, from, hi, if r < 0 then -1 else from + r);
  }

  lemma FoldAtShift(b: string, from: nat, k: int, needle: string)
    requires from <= |b| && 0 <= k
    ensures FoldAt(b[from..], k, needle) == FoldAt(b, from + k, needle)
  {
    if from + k + |needle| <= |b| { assert b[from..][k..k + |needle|] == b[from + k..from + k + |needle|]; }
  }

  lemma OpenShift(b: string, from: nat, needle: string)
    requires from <= |b|
    ensures NextOpen(b, from, needle) ==
            if NextOpen(b[from..], 0, needle) < 0 then -1 else from + NextOpen(b[from..], 0, needle)
  {
    hide FirstFrom, FoldAt;
    forall k | 0 <= k < |b| - from ensures OpenAt(b[from..], k, needle) == OpenAt(b, from + k, needle) {
      FoldAtShift(b, from, k, needle);
    }
    Shifted(i => OpenAt(b, i, needle), i => OpenAt(b[from..], i, needle), from, |b|);
  }

  lemma CloseShift(b: string, from: nat, needle: string)
    requires from <= |b|
    ensures NextClose(b, from, needle) ==
            if NextClose(b[from..], 0, needle) < 0 then -1 else from + NextClose(b[from..], 0, needle)
  {
    hide FirstFrom, FoldAt;
    forall k | 0 <= k < |b| - from ensures CloseAt(b[from..], k, needle) == CloseAt(b, from + k, needle) {
      FoldAtShift(b, from, k, needle);
    }
    Shifted(i => CloseAt(b, i, needle), i => CloseAt(b[from..], i, needle), from, |b|);
  }

  lemma GtShift(b: string, from: nat)
    requires from <= |b|
    ensures NextGt(b, from) == if NextGt(b[from..], 0) < 0 then -1 else from + NextGt(b[from..], 0)
  {
    hide FirstFrom, QuoteAfter;
    forall k | 0 <= k < |b| - from ensures GtAt(b[from..], 0, k) == GtAt(b, from, from + k) {
      assert b[from..][0..k] == b[from..from + k];
    }
    Shifted(i => GtAt(b, from, i), i => GtAt(b[from..], 0, i), from, |b|);
  }

  // Searching on from inside a suffix of b is searching on in b.
  lemma GtInSuffix(b: string, from: nat, k: nat)
    requires from + k <= |b|
    ensures NextGt(b, from + k) == if NextGt(b[from..], k) < 0 then -1 else from + NextGt(b[from..], k)
  {
    hide NextGt;
    SuffixOfSuffix(b, from, k);
    GtShift(b, from + k);
    GtShift(b[from..], k);
  }

  lemma CloseInSuffix(b: string, from: nat, k: nat, needle: string)
    requires from + k <= |b|
    ensures NextClose(b, from + k, needle) ==
            if NextClose(b[from..], k, needle) < 0 then -1 else from + NextClose(b[from..], k, needle)
  {
    hide NextClose;
    SuffixOfSuffix(b, from, k);
    CloseShift(b, from + k, needle);
    CloseShift(b[from..], k, needle);
  }

  // The naive reading of a suffix does not depend on what is in front of it.
  lemma {:induction false} SpansShift(b: string, from: nat, tag: string)
    requires from <= |b|
    ensures Spans(b, from, tag) == Spans(b[from..], 0, tag)
    decreases |b| - from
  {
    hide FirstFrom, NextOpen, NextGt, NextClose, Spans;
    var s := b[from..];
    SpansStep(b, from, tag);
    SpansStep(s, 0, tag);
    OpenShift(b, from, "<" + tag);
    var open := NextOpen(s, 0, "<" + tag);
    if open >= 0 {
      OpenFits(s, 0, "<" + tag);
      var attrs := open + |"<" + tag|;
      GtInSuffix(b, from, attrs);
      var gt := NextGt(s, attrs);
      if gt >= 0 {
        GtFits(s, attrs);
        CloseInSuffix(b, from, gt + 1, "</" + tag);
        var close := NextClose(s, gt + 1, "</" + tag);
        if close >= 0 {
          CloseFits(s, gt + 1, "</" + tag);
          var next := close + |"</" + tag|;
          SuffixOfSuffix(b, from, next);
          SpansShift(b, from + next, tag);
          SpansShift(s, next, tag);
          Slices(b, from, attrs, gt);
          Slices(b, from, gt + 1, close);
        }
      }
    }
  }

  lemma SuffixOfSuffix(b: string, from: nat, k: nat)
    requires from + k <= |b|
    ensures b[from..][k..] == b[from + k..]
  {}

  lemma Slices(b: string, from: nat, i: nat, j: nat)
    requires i <= j && from + j <= |b|
    ensures b[from..][i..j] == b[from + i..from + j]
  {}

  // ---------- the three searches on printed bytes ----------

  lemma NoneOpen(text: string, needle: string)
    requires NextOpen(text, 0, needle) < 0
    ensures forall k :: 0 <= k < |text| ==> !OpenAt(text, k, needle)
  {
    hide FoldAt;
    var p := i => OpenAt(text, i, needle);
    forall k | 0 <= k < |text| ensures !OpenAt(text, k, needle) { assert !p(k); }
  }

  lemma NoneClose(body: string, needle: string)
    requires NextClose(body, 0, needle) < 0
    ensures forall k :: 0 <= k < |body| ==> !CloseAt(body, k, needle)
  {
    hide FoldAt;
    var p := i => CloseAt(body, i, needle);
    forall k | 0 <= k < |body| ensures !CloseAt(body, k, needle) { assert !p(k); }
  }

  // An opening tag after text without one is the first.
  lemma OpenAfterText(text: string, open: string, tail: string, tag: string)
    requires IsTag(tag) && NextOpen(text, 0, "<" + tag) < 0 && Lower(open) == "<" + tag
    requires tail != "" && IsBoundary(tail[0])
    ensures NextOpen(text + (open + tail), 0, "<" + tag) == |text|
  {
    hide FirstFrom;
    var needle := "<" + tag;
    TagNeedles(tag);
    var s := text + (open + tail);
    assert s[|text|..|text| + |needle|] == open;
    assert s[|text| + |needle|] == tail[0];
    LeadingLess(open, needle);
    NoneOpen(text, needle);
    forall k | 0 <= k < |text| ensures !OpenAt(s, k, needle) {
      NoOpenAcross(text, open + tail, k, needle);
    }
    FirstIs(i => OpenAt(s, i, needle), 0, |s|, |text|);
  }

  // Text with no opening tag and a '>' in front still has none.
  lemma OpenFreeAfterGt(text: string, tag: string)
    requires IsTag(tag) && NextOpen(text, 0, "<" + tag) < 0
    ensures NextOpen(">" + text, 0, "<" + tag) < 0
  {
    hide FirstFrom, FoldAt;
    var needle, s := "<" + tag, ">" + text;
    NoneOpen(text, needle);
    forall k | 0 <= k < |s| ensures !OpenAt(s, k, needle) {
      if k == 0 {
        if FoldAt(s, 0, needle) { FoldAtByte(s, 0, needle, 0); }
      } else {
        assert s[1..] == text;
        OpenPastByte(s, k - 1, needle);
      }
    }
    FirstIs(i => OpenAt(s, i, needle), 0, |s|, -1);
  }

  // A match that starts in the text lies in the text, when a '<' follows the text.
  lemma AcrossText(text: string, tail: string, k: nat, needle: string)
    requires HeadOnly(needle) && k < |text| && tail != "" && LowerASCII(tail[0]) == '<'
    requires FoldAt(text + tail, k, needle)
    ensures k + |needle| <= |text| && FoldAt(text, k, needle)
  {
    hide FoldAt;
    FoldAtFits(text + tail, k, needle);
    if k + |needle| > |text| { FoldAtByte(text + tail, k, needle, |text| - k); }
    SameMatch(text, tail, k, needle);
  }

  lemma NoOpenAcross(text: string, tail: string, k: nat, needle: string)
    requires HeadOnly(needle) && k < |text| && tail != "" && tail[0] == '<' && !OpenAt(text, k, needle)
    ensures !OpenAt(text + tail, k, needle)
  {
    hide FoldAt;
    if FoldAt(text + tail, k, needle) { AcrossText(text, tail, k, needle); }
  }

  lemma NoCloseAcross(text: string, tail: string, k: nat, needle: string)
    requires HeadOnly(needle) && k < |text| && tail != "" && tail[0] == '<' && !CloseAt(text, k, needle)
    ensures !CloseAt(text + tail, k, needle)
  {
    hide FoldAt;
    if FoldAt(text + tail, k, needle) { AcrossText(text, tail, k, needle); }
  }

  lemma OpenPastByte(s: string, k: nat, needle: string)
    requires s != "" && !OpenAt(s[1..], k, needle)
    ensures !OpenAt(s, k + 1, needle)
  {
    hide FoldAt;
    FoldAtShift(s, 1, k, needle);
    if FoldAt(s, k + 1, needle) { FoldAtFits(s, k + 1, needle); }
  }

  lemma SameMatch(text: string, tail: string, k: nat, needle: string)
    requires k + |needle| <= |text|
    ensures FoldAt(text + tail, k, needle) == FoldAt(text, k, needle)
  {
    assert (text + tail)[k..k + |needle|] == text[k..k + |needle|];
  }

  lemma CloseAfterBody(body: string, close: string, tail: string, tag: string)
    requires IsTag(tag) && NextClose(body, 0, "</" + tag) < 0 && Lower(close) == "</" + tag
    requires tail != "" && IsBoundary(tail[0])
    ensures NextClose(body + (close + tail), 0, "</" + tag) == |body|
  {
    hide FirstFrom;
    var needle := "</" + tag;
    TagNeedles(tag);
    var s := body + (close + tail);
    assert s[|body|..|body| + |needle|] == close;
    assert s[|body| + |needle|] == tail[0];
    LeadingLess(close, needle);
    NoneClose(body, needle);
    forall k | 0 <= k < |body| ensures !CloseAt(s, k, needle) {
      NoCloseAcross(body, close + tail, k, needle);
    }
    FirstIs(i => CloseAt(s, i, needle), 0, |s|, |body|);
  }

  lemma LeadingLess(open: string, needle: string)
    requires Lower(open) == needle && needle != "" && needle[0] == '<'
    ensures open != "" && open[0] == '<'
  {
    assert Lower(open)[0] == LowerASCII(open[0]);
  }

  // ---------- quotes ----------

  // s entered inside quote q0 leaves q1, with no '>' outside quotes.
  ghost predicate Closed(s: string, q0: Option<char>, q1: Option<char>) {
    && QuoteAfter(s, q0) == q1
    && forall i :: 0 <= i < |s| && s[i] == '>' ==> QuoteAfter(s[..i], q0).Some?
  }

  lemma ClosedAppend(s: string, t: string, q0: Option<char>, q1: Option<char>, q2: Option<char>)
    requires Closed(s, q0, q1) && Closed(t, q1, q2)
    ensures Closed(s + t, q0, q2)
  {
    hide QuoteAfter;
    QuoteAppend(s, t, q0);
    forall i | 0 <= i < |s + t| && (s + t)[i] == '>' ensures QuoteAfter((s + t)[..i], q0).Some? {
      if i < |s| {
        assert (s + t)[..i] == s[..i];
      } else {
        assert (s + t)[..i] == s + t[..i - |s|];
        QuoteAppend(s, t[..i - |s|], q0);
      }
    }
  }

  lemma {:induction false} ClosedBare(s: string)
    requires forall i :: 0 <= i < |s| ==> s[i] != '>' && s[i] != '"' && s[i] != '\''
    ensures Closed(s, None, None)
  {
    if s != "" {
      ClosedBare(s[1..]);
    }
  }

  lemma {:induction false} ClosedInside(s: string, q: char)
    requires q !in s
    ensures Closed(s, Some(q), Some(q))
  {
    if s != "" {
      ClosedInside(s[1..], q);
      assert s[0] in s;
      forall i | 0 <= i < |s| ensures QuoteAfter(s[..i], Some(q)).Some? {
        StaysInside(s[..i], q);
      }
    }
  }

  lemma {:induction false} StaysInside(s: string, q: char)
    requires q !in s
    ensures QuoteAfter(s, Some(q)) == Some(q)
  {
    if s != "" {
      assert s[0] in s;
      StaysInside(s[1..], q);
    }
  }

  lemma ClosedQuote(q: char)
    requires q == '"' || q == '\''
    ensures Closed([q], None, Some(q)) && Closed([q], Some(q), None)
  {
    assert [q][1..] == "";
  }

  lemma ClosedAttr(a: Attr)
    requires ValidAttr(a)
    ensures Closed(AttrText(a), None, None)
  {
    hide Closed;
    ClosedBare(" " + a.name);
    if a.value.Some? {
      var v := a.value.value;
      ClosedBare("=");
      ClosedQuote(v.quote);
      ClosedInside(v.text, v.quote);
      ClosedAppend(v.text, [v.quote], Some(v.quote), Some(v.quote), None);
      ClosedAppend([v.quote], v.text + [v.quote], None, Some(v.quote), None);
      ClosedAppend("=", [v.quote] + (v.text + [v.quote]), None, None, None);
    } else {
      ClosedBare("");
    }
    ClosedAppend(" " + a.name, ValueText(a.value), None, None, None);
    assert " " + a.name + ValueText(a.value) == AttrText(a);
  }

  lemma {:induction false} ClosedAttrs(attrs: seq<Attr>)
    requires ValidAttrs(attrs)
    ensures Closed(AttrsText(attrs), None, None)
  {
    hide Closed, AttrText;
    if attrs == [] {
      ClosedBare("");
    } else {
      ClosedAttr(attrs[0]);
      ClosedAttrs(attrs[1..]);
      ClosedAppend(AttrText(attrs[0]), AttrsText(attrs[1..]), None, None, None);
    }
  }

  lemma GtAfterAttrs(attrs: string, tail: string)
    requires Closed(attrs, None, None)
    ensures NextGt(attrs + (">" + tail), 0) == |attrs|
  {
    hide FirstFrom, QuoteAfter;
    var s := attrs + (">" + tail);
    forall k | 0 <= k <= |attrs| ensures s[0..k] == attrs[..k] {}
    assert attrs[..|attrs|] == attrs;
    forall k | 0 <= k < |attrs| ensures !GtAt(s, 0, k) {}
    FirstIs(i => GtAt(s, 0, i), 0, |s|, |attrs|);
  }

  // ---------- the page ----------

  lemma Dropped(p: string, q: string)
    ensures (p + q)[|p|..] == q && (p + q)[..|p|] == p
  {}

  // The three searches, each answered on the bytes after the one before, give one span and the
  // reading of what follows.
  lemma Assemble(s: string, tag: string, open: nat, attrs: string, afterGt: string, body: string, afterBody: string)
    requires NextOpen(s, 0, "<" + tag) == open
    requires open + |"<" + tag| <= |s| && s[open + |"<" + tag|..] == attrs + (">" + afterGt)
    requires NextGt(attrs + (">" + afterGt), 0) == |attrs|
    requires afterGt == body + afterBody && |"</" + tag| <= |afterBody|
    requires NextClose(afterGt, 0, "</" + tag) == |body|
    ensures Spans(s, 0, tag) == [Span(attrs, body)] + Spans(afterBody[|"</" + tag|..], 0, tag)
  {
    hide FirstFrom, NextOpen, NextGt, NextClose, Spans;
    var a, c := open + |"<" + tag|, |"</" + tag|;
    var gt := a + |attrs|;
    GtShift(s, a);
    var afterOpen := s[a..];
    assert afterOpen[|attrs| + 1..] == afterGt;
    SuffixOfSuffix(s, a, |attrs| + 1);
    CloseShift(s, gt + 1, "</" + tag);
    SuffixOfSuffix(s, gt + 1, |body| + c);
    assert afterGt[|body| + c..] == afterBody[c..];
    SpansShift(s, gt + 1 + |body| + c, tag);
    SpansStep(s, 0, tag);
    Slices(s, a, 0, |attrs|);
    assert afterOpen[0..|attrs|] == attrs;
    Slices(s, gt + 1, 0, |body|);
    assert afterGt[0..|body|] == body;
  }

  lemma ElementSpans(text: string, e: Elem, rest: string, tag: string)
    requires IsTag(tag) && NextOpen(text, 0, "<" + tag) < 0 && ValidElem(e, tag)
    ensures Spans(text + (ElemText(e) + rest), 0, tag) ==
            [Span(AttrsText(e.attrs), e.body)] + Spans(">" + rest, 0, tag)
  {
    hide FirstFrom, NextOpen, NextGt, NextClose, Spans, AttrsText, QuoteAfter, ElemText, Closed, IsBoundary;
    var attrs := AttrsText(e.attrs);
    var afterClose := ">" + rest;
    var afterBody := e.close + afterClose;
    var afterGt := e.body + afterBody;
    var afterOpen := attrs + (">" + afterGt);
    ElemParts(e, rest);
    var s := text + (e.open + afterOpen);
    TagLengths(e, tag);
    AttrsStart(e.attrs, afterGt);
    OpenAfterText(text, e.open, afterOpen, tag);
    assert s == (text + e.open) + afterOpen;
    Dropped(text + e.open, afterOpen);
    ClosedAttrs(e.attrs);
    GtAfterAttrs(attrs, afterGt);
    BoundaryGt(rest);
    CloseAfterBody(e.body, e.close, afterClose, tag);
    Dropped(e.close, afterClose);
    Assemble(s, tag, |text|, attrs, afterGt, e.body, afterBody);
  }

  lemma ElemParts(e: Elem, rest: string)
    ensures ElemText(e) + rest == e.open + (AttrsText(e.attrs) + (">" + (e.body + (e.close + (">" + rest)))))
  {
    hide AttrsText;
    var a := AttrsText(e.attrs);
    assert (e.close + ">") + rest == e.close + (">" + rest);
    assert (e.body + (e.close + ">")) + rest == e.body + ((e.close + ">") + rest);
    assert (">" + (e.body + (e.close + ">"))) + rest == ">" + ((e.body + (e.close + ">")) + rest);
    assert (a + (">" + (e.body + (e.close + ">")))) + rest == a + ((">" + (e.body + (e.close + ">"))) + rest);
  }

  lemma TagLengths(e: Elem, tag: string)
    requires ValidElem(e, tag)
    ensures |e.open| == |"<" + tag| && |e.close| == |"</" + tag|
  {
    assert |Lower(e.open)| == |e.open|;
  }

  lemma BoundaryGt(rest: string)
    ensures IsBoundary((">" + rest)[0])
  {}

  lemma AttrsStart(attrs: seq<Attr>, tail: string)
    ensures IsBoundary((AttrsText(attrs) + (">" + tail))[0])
  {}

  // On any printed page the naive reading, and so the scanner, finds exactly the elements printed,
  // in order, with their attributes and bodies.
  lemma {:induction false} PageReadsBack(texts: seq<string>, elems: seq<Elem>, tag: string)
    requires IsTag(tag) && ValidPage(texts, elems, tag)
    ensures Spans(PageText(texts, elems), 0, tag) == Printed(elems)
    decreases |elems|
  {
    hide FirstFrom, NextOpen, NextGt, NextClose, Spans, ElemText, AttrsText, ValidElem;
    if elems == [] {
      SpansStep(texts[0], 0, tag);
    } else {
      var e, rest := elems[0], PageText(texts[1..], elems[1..]);
      ElementSpans(texts[0], e, rest, tag);
      OpenFreeAfterGt(texts[1], tag);
      var texts' := [">" + texts[1]] + texts[2..];
      assert ValidPage(texts', elems[1..], tag);
      PageReadsBack(texts', elems[1..], tag);
      GtInText(texts[1..], elems[1..]);
      assert texts[1..][1..] == texts[2..];
      assert Printed(elems) == [Span(AttrsText(e.attrs), e.body)] + Printed(elems[1..]);
    }
  }

  lemma GtInText(texts: seq<string>, elems: seq<Elem>)
    requires |texts| == |elems| + 1
    ensures PageText([">" + texts[0]] + texts[1..], elems) == ">" + PageText(texts, elems)
  {
    hide ElemText;
    assert ([">" + texts[0]] + texts[1..])[1..] == texts[1..];
    if elems != [] {
      var r := ElemText(elems[0]) + PageText(texts[1..], elems[1..]);
      assert (">" + texts[0]) + r == ">" + (texts[0] + r);
    }
  }
}
