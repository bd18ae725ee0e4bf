/** prelude.go: the Allow field value (section 10.2.1 of RFC 9110), read back by the list scanner. */
module Prelude {
  import opened Text
  import opened FieldList

  // The method set an Allow field names: first occurrences of the non-blank entries, in order.
  function Dedupe(allowed: seq<string>): seq<string> {
    if allowed == [] then []
    else
      var uniq, m := Dedupe(allowed[..|allowed| - 1]), allowed[|allowed| - 1];
      if m == "" || m in uniq then uniq else uniq + [m]
  }

  function Render(allowed: seq<string>): string {
    if |allowed| == 1 then allowed[0] else Join(Dedupe(allowed), ", ")
  }

  // allowValue
  method AllowValue(allowed: seq<string>) returns (v: string)
    ensures v == Render(allowed)
  {
    if |allowed| == 1 {
      return allowed[0];
    }
    var uniq: seq<string> := [];
    for i := 0 to |allowed|
      invariant uniq == Dedupe(allowed[..i])
    {
      var m := allowed[i];
      assert allowed[..i + 1][..i] == allowed[..i];
      if m == "" || m in uniq {
        continue;
      }
      uniq := uniq + [m];
    }
    assert allowed[..|allowed|] == allowed;
    return Join(uniq, ", ");
  }

  // x first occurs in s at index i.
  predicate FirstAt(s: seq<string>, x: string, i: nat) {
    i < |s| && s[i] == x && x !in s[..i]
  }

  // Dedupe keeps exactly the non-blank entries, each once, in the order of first occurrence.
  lemma {:induction false} DedupeMeaning(s: seq<string>)
    ensures forall x :: x in Dedupe(s) <==> x in s && x != ""
    ensures forall a: nat, b: nat, i: nat, j: nat ::
              0 <= a < b < |Dedupe(s)| && FirstAt(s, Dedupe(s)[a], i) && FirstAt(s, Dedupe(s)[b], j) ==> i < j
  {
    if s != [] {
      var t, m := s[..|s| - 1], s[|s| - 1];
      assert s == t + [m];
      DedupeMeaning(t);
      var d := Dedupe(t);
      forall a: nat, b: nat, i: nat, j: nat | 0 <= a < b < |Dedupe(s)| && FirstAt(s, Dedupe(s)[a], i)
          && FirstAt(s, Dedupe(s)[b], j)
        ensures i < j
      {
        FirstAtPrefix(t, m, d[a], i);
        if b < |d| {
          FirstAtPrefix(t, m, d[b], j);
        }
      }
    }
  }

  lemma FirstAtPrefix(t: seq<string>, m: string, x: string, i: nat)
    requires FirstAt(t + [m], x, i) && x in t
    ensures FirstAt(t, x, i)
  {
    assert (t + [m])[..|t|] == t;
    assert i < |t| ==> (t + [m])[..i] == t[..i];
  }

  // ---------- reading it back ----------

  predicate TokensAndBlanks(allowed: seq<string>) {
    forall m :: m in allowed ==> m == "" || IsToken(m)
  }

  lemma TokenIsWellFormed(e: string)
    requires IsToken(e)
    ensures WellFormed(TokenList, e)
  {
    assert ',' !in e;
    NoCommaNoSeparator(e);
    TokenListIsPlain(e);
  }

  lemma {:induction false} JoinIsLayout(elems: seq<string>) returns (gaps: seq<string>)
    requires elems != []
    ensures IsLayout(gaps, |elems|) && gaps[0] == ""
    ensures Layout(gaps, elems) == Join(elems, ", ")
  {
    if |elems| == 1 {
      gaps := ["", ""];
      assert elems[1..] == [] && gaps[1..] == [""];
    } else {
      var more := JoinIsLayout(elems[1..]);
      LayoutHead(", ", more, elems[1..]);
      gaps := [""] + ([", " + more[0]] + more[1..]);
      assert gaps[1..] == [", " + more[0]] + more[1..];
      assert elems[0] + (", " + Join(elems[1..], ", ")) == elems[0] + ", " + Join(elems[1..], ", ");
      assert ',' in gaps[1] by { assert gaps[1][0] == ','; }
    }
  }

  lemma {:induction false} DedupeOnce(s: seq<string>)
    ensures Dedupe(Dedupe(s)) == Dedupe(s)
  {
    if s != [] {
      var t := s[..|s| - 1];
      DedupeOnce(t);
      var d := Dedupe(s);
      if d != Dedupe(t) {
        assert d[..|d| - 1] == Dedupe(t);
      }
    }
  }

  // For method tokens and blanks, the Allow value reads back as the method set, and rendering that
  // set again gives the same value.
  lemma AllowReadsBack(allowed: seq<string>)
    requires TokensAndBlanks(allowed)
    ensures Elements(TokenList, Join([Render(allowed)], ",")) == Dedupe(allowed)
    ensures Render(Dedupe(allowed)) == Render(allowed)
  {
    hide Elements, Layout, IsLayout, Trim, WellFormed, Dedupe, IsToken, Ends;
    DedupeMeaning(allowed);
    DedupeOnce(allowed);
    var d := Dedupe(allowed);
    SingleEntry(allowed);
    assert Render(allowed) == Join(d, ", ");
    NothingReads(TokenList);
    if d != [] {
      var gaps := JoinIsLayout(d);
      forall i | 0 <= i < |d| ensures WellFormed(TokenList, d[i]) {
        assert d[i] in d;
        TokenIsWellFormed(d[i]);
      }
      LayoutReadsBack(TokenList, gaps, d);
    }
  }

  lemma SingleEntry(allowed: seq<string>)
    ensures |allowed| == 1 ==> Dedupe(allowed) == if allowed[0] == "" then [] else [allowed[0]]
  {
    if |allowed| == 1 { assert allowed[..0] == []; }
  }
}
