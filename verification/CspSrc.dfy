/** csp.go: on printed attributes, the src test answers exactly whether a src attribute with a value is there. */
module CspSrc {
  import opened Text
  import opened AsciiFold
  import opened Csp
  import opened CspPage

  // The test as one pass over a suffix, carrying the quote and whether a name may start here.
  ghost predicate Pass(s: string, quote: Option<char>, atName: bool) {
    if s == "" then false
    else if quote.Some? then Pass(s[1..], QuoteStep(quote, s[0]), atName)
    else if s[0] == '"' || s[0] == '\'' then Pass(s[1..], Some(s[0]), false)
    else if IsSpace(s[0]) then Pass(s[1..], None, true)
    else (atName && SrcAt(s, 0)) || Pass(s[1..], None, false)
  }

  lemma SrcAtSuffix(s: string, i: nat)
    requires i <= |s|
    ensures SrcAt(s[i..], 0) == SrcAt(s, i)
  {
    hide FoldAt;
    FoldAtSuffix(s, i, "src");
    assert forall k :: 0 <= k < |s| - i ==> s[i..][k] == s[i + k];
    if SrcAt(s, i) {
      var j :| i + 3 <= j < |s| && s[j] == '=' && forall k :: i + 3 <= k < j ==> IsSpace(s[k]);
      assert s[i..][j - i] == '=' && forall k :: 3 <= k < j - i ==> IsSpace(s[i..][k]);
    }
    if SrcAt(s[i..], 0) {
      var j :| 3 <= j < |s[i..]| && s[i..][j] == '=' && forall k :: 3 <= k < j ==> IsSpace(s[i..][k]);
      assert s[i + j] == '=';
      forall k | i + 3 <= k < i + j ensures IsSpace(s[k]) { assert IsSpace(s[i..][k - i]); }
    }
  }

  // A src name at or after position i.
  ghost predicate SrcFrom(s: string, i: nat) {
    exists k :: i <= k < |s| && QuoteAfter(s[..k], None) == None && AtName(s[..k]) && SrcAt(s, k)
  }

  lemma {:induction false} PassMeaning(s: string, i: nat)
    requires i <= |s|
    ensures Pass(s[i..], QuoteAfter(s[..i], None), AtName(s[..i])) <==> SrcFrom(s, i)
    decreases |s| - i
  {
    hide QuoteAfter, AtName, SrcAt;
    if i < |s| {
      PassMeaning(s, i + 1);
      assert s[i..][1..] == s[i + 1..] && s[i..][0] == s[i];
      assert s[0..i] == s[..i] && s[0..i + 1] == s[..i + 1];
      QuoteNext(s, 0, i);
      AtNameNext(s, i);
      SrcAtSuffix(s, i);
      if SrcAt(s, i) { SrcIsNoSpace(s, i); }
      assert SrcFrom(s, i) <==>
             (QuoteAfter(s[..i], None) == None && AtName(s[..i]) && SrcAt(s, i)) || SrcFrom(s, i + 1);
    }
  }

  lemma HasSrcIsPass(s: string)
    ensures HasSrc(s) <==> Pass(s, None, true)
  {
    hide QuoteAfter, AtName, SrcAt, Pass;
    PassMeaning(s, 0);
    NameNothing();
    assert s[0..] == s && s[..0] == "";
  }

  // ---------- printed attributes ----------

  predicate IsSrc(a: Attr) { a.value.Some? && EqualFold(a.name, "src") }

  predicate Starts(s: string) { s == "" || (|s| > 1 && s[0] == ' ' && s[1] != '=' && !IsSpace(s[1])) }

  // Bytes that are no quote and no space end the name position and change nothing else.
  lemma {:induction false} PassOver(s: string, rest: string)
    requires forall i :: 0 <= i < |s| ==> !IsSpace(s[i]) && s[i] != '"' && s[i] != '\''
    ensures Pass(s + rest, None, false) == Pass(rest, None, false)
  {
    hide SrcAt;
    if s == "" {
      assert s + rest == rest;
    } else {
      assert (s + rest)[1..] == s[1..] + rest;
      PassOver(s[1..], rest);
    }
  }

  lemma {:induction false} PassInside(text: string, q: char, rest: string)
    requires q !in text
    ensures Pass(text + ([q] + rest), Some(q), false) == Pass(rest, None, false)
  {
    hide SrcAt;
    var s := text + ([q] + rest);
    if text == "" {
      assert s[1..] == rest;
    } else {
      assert text[0] in text;
      assert s[1..] == text[1..] + ([q] + rest);
      PassInside(text[1..], q, rest);
    }
  }

  lemma PassValue(v: Option<QuotedText>, rest: string)
    requires v.Some? ==> (v.value.quote == '"' || v.value.quote == '\'') && v.value.quote !in v.value.text
    ensures Pass(ValueText(v) + rest, None, false) == Pass(rest, None, false)
  {
    hide SrcAt;
    if v.None? {
      assert "" + rest == rest;
    } else {
      var q, text := v.value.quote, v.value.text;
      var tail := text + ([q] + rest);
      assert ValueText(v) + rest == "=" + ([q] + tail);
      PassOver("=", [q] + tail);
      assert ([q] + tail)[1..] == tail;
      PassInside(text, q, rest);
    }
  }

  // At the start of a printed name, "src" stands exactly for a src attribute with a value.
  lemma SrcAtName(a: Attr, rest: string)
    requires ValidAttr(a) && Starts(rest)
    ensures SrcAt(a.name + (ValueText(a.value) + rest), 0) <==> IsSrc(a)
  {
    var tail := ValueText(a.value) + rest;
    var s := a.name + tail;
    assert forall k :: 0 <= k < |a.name| ==> s[k] == a.name[k] && NameByte(s[k]);
    assert tail != "" ==> s[|a.name|] == tail[0];
    if IsSrc(a) {
      assert |Lower(a.name)| == 3;
      assert s[0..3] == a.name;
      assert s[3] == '=';
    }
    if SrcAt(s, 0) {
      ThreeLetters(s);
      TailStart(a, rest);
      if |a.name| == 3 {
        assert s[0..3] == a.name;
        if a.value.None? { BareSrc(a.name, rest); }
      }
      if |a.name| > 3 { LongName(a.name, tail); }
    }
  }

  lemma ThreeLetters(s: string)
    requires SrcAt(s, 0)
    ensures |s| > 3 && forall k :: 0 <= k < 3 ==> LowerASCII(s[k]) == "src"[k]
  {
    forall k | 0 <= k < 3 ensures LowerASCII(s[k]) == "src"[k] { FoldAtByte(s, 0, "src", k); }
  }

  lemma TailStart(a: Attr, rest: string)
    requires ValidAttr(a) && Starts(rest)
    ensures var tail := ValueText(a.value) + rest;
            tail == "" || (a.value.Some? && tail[0] == '=') || (a.value.None? && tail[0] == ' ')
  {}

  lemma LongName(name: string, tail: string)
    requires |name| > 3 && All(name, NameByte)
    ensures !SrcAt(name + tail, 0)
  {
    var s := name + tail;
    assert s[3] == name[3] && NameByte(name[3]);
  }

  lemma BareSrc(name: string, rest: string)
    requires |name| == 3 && Starts(rest)
    ensures !SrcAt(name + ("" + rest), 0)
  {
    var s := name + ("" + rest);
    if rest != "" { assert s[3] == rest[0] && s[4] == rest[1]; }
  }

  lemma PassAttr(a: Attr, rest: string, atName: bool)
    requires ValidAttr(a) && Starts(rest)
    ensures Pass(AttrText(a) + rest, None, atName) <==> IsSrc(a) || Pass(rest, None, false)
  {
    hide SrcAt, ValueText;
    var named := a.name + (ValueText(a.value) + rest);
    assert AttrText(a) + rest == " " + named;
    assert (" " + named)[1..] == named;
    SrcAtName(a, rest);
    var c := a.name[0];
    assert NameByte(c);
    assert named[0] == c;
    assert named[1..] == a.name[1..] + (ValueText(a.value) + rest);
    PassOver(a.name[1..], ValueText(a.value) + rest);
    PassValue(a.value, rest);
  }

  lemma AttrsStarts(attrs: seq<Attr>)
    requires ValidAttrs(attrs)
    ensures Starts(AttrsText(attrs))
  {
    hide ValueText;
    if attrs != [] {
      var a := attrs[0];
      assert ValidAttr(a);
      assert AttrsText(attrs)[0] == ' ' && AttrsText(attrs)[1] == a.name[0];
      assert NameByte(a.name[0]);
    }
  }

  lemma {:induction false} PassAttrs(attrs: seq<Attr>, atName: bool)
    requires ValidAttrs(attrs)
    ensures Pass(AttrsText(attrs), None, atName) <==> exists i :: 0 <= i < |attrs| && IsSrc(attrs[i])
  {
    hide AttrText, Pass, IsSrc;
    if attrs == [] {
      PassNothing(atName);
    } else {
      AttrsStarts(attrs[1..]);
      PassAttr(attrs[0], AttrsText(attrs[1..]), atName);
      PassAttrs(attrs[1..], false);
      if i :| 0 <= i < |attrs| && IsSrc(attrs[i]) {
        if i > 0 { assert IsSrc(attrs[1..][i - 1]); }
      }
    }
  }

  lemma PassNothing(atName: bool)
    ensures !Pass("", None, atName)
  {}

  // A script printed with quoted, space-separated attributes is skipped exactly when one of them is
  // a src with a value: srcset, data-src, a bare src and a "src=" inside a value do not count.
  lemma PrintedSrc(attrs: seq<Attr>)
    requires ValidAttrs(attrs)
    ensures HasSrc(AttrsText(attrs)) <==> exists i :: 0 <= i < |attrs| && IsSrc(attrs[i])
  {
    hide HasSrc, AttrsText, Pass;
    HasSrcIsPass(AttrsText(attrs));
    PassAttrs(attrs, true);
  }

  // In HTML a bare src is a src attribute too.
  predicate DeclaresSrc(a: Attr) { EqualFold(a.name, "src") }

  // The test misses a declared src exactly when every src of the script is bare.
  lemma BareSrcIsMissed(attrs: seq<Attr>)
    requires ValidAttrs(attrs)
    ensures (HasSrc(AttrsText(attrs)) <==> exists i :: 0 <= i < |attrs| && DeclaresSrc(attrs[i])) <==>
            !((exists i :: 0 <= i < |attrs| && DeclaresSrc(attrs[i]))
              && forall i :: 0 <= i < |attrs| && DeclaresSrc(attrs[i]) ==> attrs[i].value.None?)
  {
    hide HasSrc, AttrsText, EqualFold;
    PrintedSrc(attrs);
  }

  // It happens: a script whose only attribute is a bare src is taken for an inline one.
  lemma BareSrcLooksInline()
    ensures DeclaresSrc(Attr("src", None)) && !HasSrc(" src")
  {
    hide HasSrc;
    var a := Attr("src", None);
    PrintedSrc([a]);
    assert AttrText(a) == " src" && [a][1..] == [];
    assert AttrsText([]) == "";
    assert AttrsText([a]) == " src";
  }

  // The bodies of a printed page, minus the scripts that carry a src.
  ghost function Bodies(elems: seq<Elem>, skipSrc: bool, hash: string -> string): seq<string> {
    if elems == [] then []
    else
      (if skipSrc && exists i :: 0 <= i < |elems[0].attrs| && IsSrc(elems[0].attrs[i]) then []
       else [hash(elems[0].body)])
      + Bodies(elems[1..], skipSrc, hash)
  }

  lemma {:induction false} HashedBodies(elems: seq<Elem>, skipSrc: bool, hash: string -> string)
    requires forall i :: 0 <= i < |elems| ==> ValidAttrs(elems[i].attrs)
    ensures Hashed(Printed(elems), skipSrc, hash) == Bodies(elems, skipSrc, hash)
  {
    hide HasSrc, AttrsText, IsSrc;
    if elems != [] {
      PrintedSrc(elems[0].attrs);
      HashedBodies(elems[1..], skipSrc, hash);
      assert Printed(elems)[1..] == Printed(elems[1..]);
    }
  }

  // What the scanner returns on a printed page: the hashes of exactly the bodies printed, in order,
  // minus the scripts with a src attribute.
  lemma PageHashes(texts: seq<string>, elems: seq<Elem>, tag: string, skipSrc: bool, hash: string -> string)
    requires IsTag(tag) && ValidPage(texts, elems, tag)
    ensures Hashed(Spans(PageText(texts, elems), 0, tag), skipSrc, hash) == Bodies(elems, skipSrc, hash)
  {
    hide NextOpen, NextClose, Spans, Hashed, PageText, Bodies;
    PageReadsBack(texts, elems, tag);
    HashedBodies(elems, skipSrc, hash);
  }
}
