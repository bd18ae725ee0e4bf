/**
 fieldlist.go: one scanner for the three quoting dialects of a list-valued field
 (sections 5.6.1, 5.6.4 and 8.8.3 of RFC 9110).
 */
module FieldList {
  import opened Text

  datatype Syntax = TokenList | QuotedStringList | EntityTagList

  // Where a byte stands: outside quotes, inside them, or right after a '\' inside them.
  datatype Mode = Plain | Quoted | Escaped

  function Next(syn: Syntax, m: Mode, c: char): Mode {
    match m
    case Escaped => Quoted
    case Quoted => if syn.QuotedStringList? && c == '\\' then Escaped else if c == '"' then Plain else Quoted
    case Plain => if !syn.TokenList? && c == '"' then Quoted else Plain
  }

  function Ends(syn: Syntax, s: string, m: Mode): Mode {
    if s == "" then m else Ends(syn, s[1..], Next(syn, m, s[0]))
  }

  // The first comma of s that separates, or |s|, when s is entered in mode m.
  function FirstSeparator(syn: Syntax, s: string, m: Mode): (k: nat)
    ensures k <= |s|
    ensures k < |s| ==> s[k] == ','
  {
    if s == "" || (m.Plain? && s[0] == ',') then 0
    else 1 + FirstSeparator(syn, s[1..], Next(syn, m, s[0]))
  }

  predicate NoSeparator(syn: Syntax, s: string, m: Mode) {
    FirstSeparator(syn, s, m) == |s|
  }

  // The text between two separators: trimmed, and dropped when that leaves nothing.
  function Element(piece: string): (r: seq<string>) {
    var e := Trim(piece, IsOws);
    if e == "" then [] else [e]
  }

  // What a field reads as.
  function Elements(syn: Syntax, field: string): seq<string>
    decreases |field|
  {
    var k := FirstSeparator(syn, field, Plain);
    if k == |field| then Element(field)
    else Element(field[..k]) + Elements(syn, field[k + 1..])
  }

  // ---------- the printer ----------

  predicate WellFormed(syn: Syntax, e: string) {
    && e != "" && !IsOws(e[0]) && !IsOws(e[|e| - 1])
    && NoSeparator(syn, e, Plain) && Ends(syn, e, Plain) == Plain
  }

  predicate IsGap(g: string) {
    forall i :: 0 <= i < |g| ==> IsOws(g[i]) || g[i] == ','
  }

  // A list layout: a gap before each element and one after the last. Gaps are SP, HTAB and commas,
  // and hold a comma when they stand between two elements.
  predicate IsLayout(gaps: seq<string>, n: nat) {
    && |gaps| == n + 1
    && (forall i :: 0 <= i <= n ==> IsGap(gaps[i]))
    && (forall i :: 0 < i < n ==> ',' in gaps[i])
  }

  function Layout(gaps: seq<string>, elems: seq<string>): string
    requires |gaps| == |elems| + 1
  {
    if elems == [] then gaps[0] else gaps[0] + elems[0] + Layout(gaps[1..], elems[1..])
  }

  predicate AllWellFormed(syn: Syntax, elems: seq<string>) {
    forall i :: 0 <= i < |elems| ==> WellFormed(syn, elems[i])
  }

  function Flatten<T>(lists: seq<seq<T>>): seq<T> {
    if lists == [] then [] else lists[0] + Flatten(lists[1..])
  }

  function ElementsPerLine(syn: Syntax, lines: seq<string>): seq<string> {
    if lines == [] then [] else Elements(syn, lines[0]) + ElementsPerLine(syn, lines[1..])
  }

  // ---------- scanning a concatenation ----------

  lemma {:induction false} EndsAppend(syn: Syntax, p: string, q: string, m: Mode)
    ensures Ends(syn, p + q, m) == Ends(syn, q, Ends(syn, p, m))
  {
    if p == "" {
      assert p + q == q;
    } else {
      assert (p + q)[1..] == p[1..] + q;
      EndsAppend(syn, p[1..], q, Next(syn, m, p[0]));
    }
  }

  lemma {:induction false} SeparatorAppend(syn: Syntax, p: string, q: string, m: Mode)
    requires NoSeparator(syn, p, m)
    ensures FirstSeparator(syn, p + q, m) == |p| + FirstSeparator(syn, q, Ends(syn, p, m))
  {
    if p == "" {
      assert p + q == q;
    } else {
      assert (p + q)[1..] == p[1..] + q;
      SeparatorAppend(syn, p[1..], q, Next(syn, m, p[0]));
    }
  }

  // Before its first separator a string has none, and the separator is met in Plain mode.
  lemma {:induction false} BeforeSeparator(syn: Syntax, s: string, m: Mode)
    ensures var k := FirstSeparator(syn, s, m);
            NoSeparator(syn, s[..k], m) && (k < |s| ==> Ends(syn, s[..k], m) == Plain)
  {
    var k := FirstSeparator(syn, s, m);
    if k > 0 {
      BeforeSeparator(syn, s[1..], Next(syn, m, s[0]));
      assert s[..k][1..] == s[1..][..k - 1];
    }
  }

  lemma {:induction false} TokenListIsPlain(s: string)
    ensures Ends(TokenList, s, Plain) == Plain
  {
    if s != "" { TokenListIsPlain(s[1..]); }
  }

  // A comma met in Plain mode splits the scan in two independent ones.
  lemma FirstPiece(syn: Syntax, p: string, b: string)
    requires NoSeparator(syn, p, Plain) && Ends(syn, p, Plain) == Plain
    ensures Elements(syn, p + "," + b) == Element(p) + Elements(syn, b)
  {
    hide Element, Ends;
    var s := p + "," + b;
    SeparatorAppend(syn, p, "," + b, Plain);
    assert s == p + ("," + b);
    assert s[..|p|] == p && s[|p| + 1..] == b;
  }

  lemma OnlyPiece(syn: Syntax, p: string)
    requires NoSeparator(syn, p, Plain)
    ensures Elements(syn, p) == Element(p)
  {}

  lemma {:induction false} ElementsSplit(syn: Syntax, a: string, b: string)
    requires Ends(syn, a, Plain) == Plain
    ensures Elements(syn, a + "," + b) == Elements(syn, a) + Elements(syn, b)
    decreases |a|
  {
    hide *;
    var k := FirstSeparator(syn, a, Plain);
    BeforeSeparator(syn, a, Plain);
    if k == |a| {
      assert a[..k] == a;
      OnlyPiece(syn, a);
      FirstPiece(syn, a, b);
    } else {
      var p, a' := a[..k], a[k + 1..];
      EndsPastComma(syn, p, a');
      assert a == p + "," + a';
      FirstPiece(syn, p, a');
      ElementsSplit(syn, a', b);
      FirstPiece(syn, p, a' + "," + b);
      assert a + "," + b == p + "," + (a' + "," + b);
    }
  }

  lemma EndsPastComma(syn: Syntax, p: string, b: string)
    requires Ends(syn, p, Plain) == Plain
    ensures Ends(syn, p + "," + b, Plain) == Ends(syn, b, Plain)
  {
    assert p + "," + b == p + ("," + b);
    EndsAppend(syn, p, "," + b, Plain);
    assert ("," + b)[1..] == b;
  }

  lemma {:induction false} NoCommaNoSeparator(e: string)
    requires ',' !in e
    ensures NoSeparator(TokenList, e, Plain)
  {
    if e != "" { NoCommaNoSeparator(e[1..]); }
  }

  lemma {:induction false} OwsStaysPlain(syn: Syntax, g: string)
    requires All(g, IsOws)
    ensures NoSeparator(syn, g, Plain) && Ends(syn, g, Plain) == Plain
  {
    if g != "" { OwsStaysPlain(syn, g[1..]); }
  }

  lemma ElementWithOws(syn: Syntax, e: string, right: string)
    requires WellFormed(syn, e) && All(right, IsOws)
    ensures NoSeparator(syn, e + right, Plain) && Ends(syn, e + right, Plain) == Plain
    ensures Element(e + right) == [e]
  {
    OwsStaysPlain(syn, right);
    EndsAppend(syn, e, right, Plain);
    SeparatorAppend(syn, e, right, Plain);
    TrimUnique("", e, right, IsOws);
    assert "" + e + right == e + right;
  }

  // ---------- reading back a layout ----------

  lemma IsGapTail(g: string)
    requires g != "" && IsGap(g)
    ensures IsGap(g[1..]) && (IsOws(g[0]) || g[0] == ',')
  {}

  // A leading gap changes nothing.
  lemma {:induction false} GapThenRest(syn: Syntax, g: string, s: string)
    requires IsGap(g)
    ensures Elements(syn, g + s) == Elements(syn, s)
    ensures Ends(syn, g + s, Plain) == Ends(syn, s, Plain)
  {
    hide *;
    if g == "" {
      assert g + s == s;
    } else {
      assert IsGap(g[1..]) && (IsOws(g[0]) || g[0] == ',') by { IsGapTail(g); }
      GapThenRest(syn, g[1..], s);
      assert g + s == [g[0]] + (g[1..] + s);
      if g[0] == ',' {
        LeadingComma(syn, g[1..] + s);
      } else {
        LeadingOws(syn, g[0], g[1..] + s);
      }
    }
  }

  lemma LeadingComma(syn: Syntax, s: string)
    ensures Elements(syn, [','] + s) == Elements(syn, s)
    ensures Ends(syn, [','] + s, Plain) == Ends(syn, s, Plain)
  {
    assert "" + "," + s == [','] + s;
    FirstPiece(syn, "", s);
    EndsPastComma(syn, "", s);
  }

  lemma LeadingOws(syn: Syntax, c: char, s: string)
    requires IsOws(c)
    ensures Elements(syn, [c] + s) == Elements(syn, s)
    ensures Ends(syn, [c] + s, Plain) == Ends(syn, s, Plain)
  {
    hide *;
    var t := [c] + s;
    var k := FirstSeparator(syn, s, Plain);
    OwsStep(syn, c, s);
    var p := s[..k];
    ElementSkipsOws(c, p);
    if k == |s| {
      assert p == s;
      OnlyPiece(syn, s);
      OnlyPiece(syn, t);
    } else {
      BeforeSeparator(syn, s, Plain);
      BeforeSeparator(syn, t, Plain);
      assert t[..k + 1] == [c] + p;
      FirstPiece(syn, p, s[k + 1..]);
      FirstPiece(syn, [c] + p, s[k + 1..]);
      assert t == ([c] + p) + "," + s[k + 1..];
      assert s == p + "," + s[k + 1..];
    }
  }

  lemma OwsStep(syn: Syntax, c: char, s: string)
    requires IsOws(c)
    ensures FirstSeparator(syn, [c] + s, Plain) == FirstSeparator(syn, s, Plain) + 1
    ensures NoSeparator(syn, s, Plain) <==> FirstSeparator(syn, s, Plain) == |s|
    ensures NoSeparator(syn, [c] + s, Plain) <==> FirstSeparator(syn, [c] + s, Plain) == |s| + 1
    ensures Ends(syn, [c] + s, Plain) == Ends(syn, s, Plain)
  {
    assert ([c] + s)[1..] == s;
  }

  lemma ElementSkipsOws(c: char, s: string)
    requires IsOws(c)
    ensures Element([c] + s) == Element(s)
  {
    TrimSkipsOws(c, s);
  }

  lemma TrimSkipsOws(c: char, s: string)
    requires IsOws(c)
    ensures Trim([c] + s, IsOws) == Trim(s, IsOws)
  {
    assert ([c] + s)[1..] == s;
  }

  lemma GapComma(g: string) returns (ows: string, g': string)
    requires IsGap(g) && ',' in g
    ensures g == ows + "," + g' && All(ows, IsOws) && IsGap(g')
  {
    var k := IndexOf(g, ',');
    ows, g' := g[..k], g[k + 1..];
  }

  // An element is read as itself when a gap follows it, either to the end or up to a comma.
  lemma ElementThenGap(syn: Syntax, e: string, g: string, s: string)
    requires WellFormed(syn, e) && IsGap(g)
    requires ',' in g
    ensures Elements(syn, e + g + s) == [e] + Elements(syn, s)
    ensures Ends(syn, e + g + s, Plain) == Ends(syn, s, Plain)
  {
    hide *;
    var ows, g' := GapComma(g);
    ElementWithOws(syn, e, ows);
    FirstPiece(syn, e + ows, g' + s);
    EndsPastComma(syn, e + ows, g' + s);
    GapThenRest(syn, g', s);
    assert e + g + s == (e + ows) + "," + (g' + s);
  }

  lemma LastElement(syn: Syntax, e: string, g: string)
    requires WellFormed(syn, e) && IsGap(g)
    ensures Elements(syn, e + g) == [e]
    ensures Ends(syn, e + g, Plain) == Plain
  {
    if ',' in g {
      assert e + g + "" == e + g;
      ElementThenGap(syn, e, g, "");
    } else {
      ElementWithOws(syn, e, g);
    }
  }

  // What follows an element in a layout starts with a gap.
  lemma LayoutOpens(gaps: seq<string>, elems: seq<string>)
    requires |gaps| == |elems| + 1 && elems != []
    ensures Layout(gaps, elems) == gaps[0] + LayoutTail(gaps, elems)
  {
    assert gaps[0] + elems[0] + Layout(gaps[1..], elems[1..]) == gaps[0] + (elems[0] + Layout(gaps[1..], elems[1..]));
  }

  function LayoutTail(gaps: seq<string>, elems: seq<string>): string
    requires |gaps| == |elems| + 1
  {
    if elems == [] then "" else elems[0] + Layout(gaps[1..], elems[1..])
  }

  lemma LayoutEnds(syn: Syntax, gaps: seq<string>, elems: seq<string>)
    requires IsLayout(gaps, |elems|) && AllWellFormed(syn, elems)
    ensures |gaps| == |elems| + 1 && IsGap(gaps[0])
    ensures elems == [] ==> Layout(gaps, elems) == gaps[0]
    ensures elems != [] ==>
              WellFormed(syn, elems[0]) && AllWellFormed(syn, elems[1..]) && IsLayout(gaps[1..], |elems| - 1)
    ensures |elems| > 1 ==> ',' in gaps[1..][0]
    ensures |elems| == 1 ==> LayoutTail(gaps, elems) == elems[0] + gaps[1..][0]
    ensures |elems| > 1 ==> LayoutTail(gaps, elems) == elems[0] + Layout(gaps[1..], elems[1..])
  {}

  lemma NothingReads(syn: Syntax)
    ensures Elements(syn, "") == [] && Ends(syn, "", Plain) == Plain
  {}

  // Every layout of well-formed elements reads back as exactly those elements.
  lemma {:induction false} LayoutReadsBack(syn: Syntax, gaps: seq<string>, elems: seq<string>)
    requires IsLayout(gaps, |elems|) && AllWellFormed(syn, elems)
    ensures Elements(syn, Layout(gaps, elems)) == elems
    ensures Ends(syn, Layout(gaps, elems), Plain) == Plain
  {
    hide *;
    LayoutEnds(syn, gaps, elems);
    if elems == [] {
      NothingReads(syn);
      assert gaps[0] + "" == gaps[0];
      GapThenRest(syn, gaps[0], "");
    } else {
      var e, es, gs := elems[0], elems[1..], gaps[1..];
      LayoutReadsBack(syn, gs, es);
      LayoutOpens(gaps, elems);
      GapThenRest(syn, gaps[0], LayoutTail(gaps, elems));
      LayoutEnds(syn, gs, es);
      if es == [] {
        LastElement(syn, e, gs[0]);
        assert elems == [e];
      } else {
        var tail := LayoutTail(gs, es);
        LayoutOpens(gs, es);
        GapThenRest(syn, gs[0], tail);
        ElementThenGap(syn, e, gs[0], tail);
        assert e + gs[0] + tail == e + (gs[0] + tail);
        assert elems == [e] + es;
      }
    }
  }

  // ---------- every field is a layout of what it reads as ----------

  lemma {:induction false} FieldToLayout(syn: Syntax, field: string) returns (gaps: seq<string>)
    ensures IsLayout(gaps, |Elements(syn, field)|)
    ensures Layout(gaps, Elements(syn, field)) == field
    decreases |field|
  {
    hide *;
    var k := FirstSeparator(syn, field, Plain);
    BeforeSeparator(syn, field, Plain);
    var p := field[..k];
    if k == |field| {
      assert p == field;
      OnlyPiece(syn, field);
      gaps := OnePieceLayout(p);
    } else {
      var rest := field[k + 1..];
      assert field == p + "," + rest;
      FirstPiece(syn, p, rest);
      var more := FieldToLayout(syn, rest);
      gaps := NextPieceLayout(p, more, Elements(syn, rest));
    }
  }

  lemma OnePieceLayout(p: string) returns (gaps: seq<string>)
    ensures IsLayout(gaps, |Element(p)|) && Layout(gaps, Element(p)) == p
  {
    var e := Trim(p, IsOws);
    var left, right := TrimSplits(p, IsOws);
    if e == "" {
      gaps := [p];
    } else {
      gaps := [left, right];
      assert [left, right][1..] == [right];
      assert [e][1..] == [];
    }
  }

  lemma NextPieceLayout(p: string, more: seq<string>, elems: seq<string>) returns (gaps: seq<string>)
    requires IsLayout(more, |elems|)
    ensures IsLayout(gaps, |Element(p) + elems|)
    ensures Layout(gaps, Element(p) + elems) == p + "," + Layout(more, elems)
  {
    hide Trim, Layout;
    var e := Trim(p, IsOws);
    var left, right := TrimSplits(p, IsOws);
    if e == "" {
      gaps := [(p + ",") + more[0]] + more[1..];
      LayoutHead(p + ",", more, elems);
      assert Element(p) + elems == elems;
      PrefixGap(p + ",", more, |elems|);
    } else {
      var tail := [(right + ",") + more[0]] + more[1..];
      PrefixGap(right + ",", more, |elems|);
      gaps := [left] + tail;
      LayoutHead(right + ",", more, elems);
      LayoutCons(left, e, tail, elems);
      assert ',' in tail[0] by { assert tail[0][|right|] == ','; }
      assert p == left + e + right;
      assert left + e + ((right + ",") + Layout(more, elems)) == left + e + right + "," + Layout(more, elems);
    }
  }

  lemma PrefixGap(g: string, gaps: seq<string>, n: nat)
    requires IsGap(g) && IsLayout(gaps, n)
    ensures IsLayout([g + gaps[0]] + gaps[1..], n)
  {}

  lemma LayoutCons(left: string, e: string, gaps: seq<string>, elems: seq<string>)
    requires |gaps| == |elems| + 1
    ensures Layout([left] + gaps, [e] + elems) == left + e + Layout(gaps, elems)
  {
    assert ([left] + gaps)[1..] == gaps && ([e] + elems)[1..] == elems;
  }

  lemma LayoutHead(g: string, gaps: seq<string>, elems: seq<string>)
    requires |gaps| == |elems| + 1
    ensures Layout([g + gaps[0]] + gaps[1..], elems) == g + Layout(gaps, elems)
  {
    var gs := [g + gaps[0]] + gaps[1..];
    assert gs[1..] == gaps[1..];
    if elems != [] {
      var t := Layout(gaps[1..], elems[1..]);
      assert g + gaps[0] + elems[0] + t == g + (gaps[0] + elems[0] + t);
    }
  }

  lemma {:induction false} OwsKeepsQuote(syn: Syntax, g: string, m: Mode)
    requires All(g, IsOws)
    ensures Ends(syn, g, m) == Plain <==> m == Plain
  {
    if g != "" { OwsKeepsQuote(syn, g[1..], Next(syn, m, g[0])); }
  }

  lemma {:induction false} NoSeparatorParts(syn: Syntax, p: string, q: string, m: Mode)
    requires NoSeparator(syn, p + q, m)
    ensures NoSeparator(syn, p, m) && NoSeparator(syn, q, Ends(syn, p, m))
  {
    if p == "" {
      assert p + q == q;
    } else {
      assert (p + q)[1..] == p[1..] + q;
      NoSeparatorParts(syn, p[1..], q, Next(syn, m, p[0]));
    }
  }

  lemma PieceIsWellFormed(syn: Syntax, p: string)
    requires NoSeparator(syn, p, Plain) && Ends(syn, p, Plain) == Plain
    ensures AllWellFormed(syn, Element(p))
  {
    hide NoSeparator, Ends, Trim;
    var left, right := TrimSplits(p, IsOws);
    MiddleCloses(syn, left, Trim(p, IsOws), right);
  }

  // What is between blanks holds no separator and closes its quotes, as the whole does.
  lemma MiddleCloses(syn: Syntax, left: string, e: string, right: string)
    requires All(left, IsOws) && All(right, IsOws)
    requires NoSeparator(syn, left + e + right, Plain) && Ends(syn, left + e + right, Plain) == Plain
    ensures NoSeparator(syn, e, Plain) && Ends(syn, e, Plain) == Plain
  {
    hide NoSeparator, Ends;
    OwsStaysPlain(syn, left);
    NoSeparatorParts(syn, left + e, right, Plain);
    NoSeparatorParts(syn, left, e, Plain);
    EndsAppend(syn, left, e, Plain);
    EndsAppend(syn, left + e, right, Plain);
    OwsKeepsQuote(syn, right, Ends(syn, left + e, Plain));
  }

  lemma {:induction false} ElementsAreWellFormed(syn: Syntax, field: string)
    requires Ends(syn, field, Plain) == Plain
    ensures AllWellFormed(syn, Elements(syn, field))
    decreases |field|
  {
    var k := FirstSeparator(syn, field, Plain);
    BeforeSeparator(syn, field, Plain);
    if k == |field| {
      PieceIsWellFormed(syn, field);
    } else {
      assert field == field[..k] + "," + field[k + 1..];
      EndsPastComma(syn, field[..k], field[k + 1..]);
      PieceIsWellFormed(syn, field[..k]);
      ElementsAreWellFormed(syn, field[k + 1..]);
    }
  }

  // A field that closes its quotes reads as a list of well-formed elements exactly when it is a
  // layout of that list: nothing is lost, invented, reordered or cut short.
  lemma ElementsIffLayout(syn: Syntax, field: string, elems: seq<string>)
    requires Ends(syn, field, Plain) == Plain
    ensures Elements(syn, field) == elems <==>
            AllWellFormed(syn, elems) && exists gaps :: IsLayout(gaps, |elems|) && Layout(gaps, elems) == field
  {
    if Elements(syn, field) == elems {
      ElementsAreWellFormed(syn, field);
      var gaps := FieldToLayout(syn, field);
    }
    if AllWellFormed(syn, elems) && exists gaps :: IsLayout(gaps, |elems|) && Layout(gaps, elems) == field {
      var gaps :| IsLayout(gaps, |elems|) && Layout(gaps, elems) == field;
      LayoutReadsBack(syn, gaps, elems);
    }
  }

  // ---------- field lines ----------

  predicate LinesClosed(syn: Syntax, lines: seq<string>) {
    forall i :: 0 <= i < |lines| ==> Ends(syn, lines[i], Plain) == Plain
  }

  // Reading the joined lines is reading each line, as long as no line but the last leaves a quote
  // open; so splitting a field at separators into lines never changes what it reads as.
  lemma {:induction false} LinesReadApart(syn: Syntax, lines: seq<string>)
    requires lines != [] ==> LinesClosed(syn, lines[..|lines| - 1])
    ensures Elements(syn, Join(lines, ",")) == ElementsPerLine(syn, lines)
  {
    if |lines| == 1 {
      assert ElementsPerLine(syn, lines[1..]) == [];
    } else if |lines| > 1 {
      assert lines[0] == lines[..|lines| - 1][0];
      assert lines[1..][..|lines[1..]| - 1] == lines[..|lines| - 1][1..];
      LinesReadApart(syn, lines[1..]);
      ElementsSplit(syn, lines[0], Join(lines[1..], ","));
    }
  }

  // With no quoting at all, this holds for all bytes.
  lemma TokenLinesReadApart(lines: seq<string>)
    ensures Elements(TokenList, Join(lines, ",")) == ElementsPerLine(TokenList, lines)
  {
    forall i | 0 <= i < |lines| ensures Ends(TokenList, lines[i], Plain) == Plain { TokenListIsPlain(lines[i]); }
    LinesReadApart(TokenList, lines);
  }

  // Lines laid out one by one read back as all their elements in order.
  lemma {:induction false} LaidOutLinesReadBack(syn: Syntax, gaps: seq<seq<string>>, elems: seq<seq<string>>,
                                              lines: seq<string>)
    requires |gaps| == |elems| == |lines|
    requires forall i :: 0 <= i < |elems| ==>
               IsLayout(gaps[i], |elems[i]|) && AllWellFormed(syn, elems[i]) && lines[i] == Layout(gaps[i], elems[i])
    ensures LinesClosed(syn, lines)
    ensures Elements(syn, Join(lines, ",")) == Flatten(elems)
  {
    forall i | 0 <= i < |lines| ensures Ends(syn, lines[i], Plain) == Plain { LayoutReadsBack(syn, gaps[i], elems[i]); }
    LinesReadApart(syn, lines);
    EachLineReadsBack(syn, gaps, elems, lines);
  }

  lemma {:induction false} EachLineReadsBack(syn: Syntax, gaps: seq<seq<string>>, elems: seq<seq<string>>,
                                              lines: seq<string>)
    requires |gaps| == |elems| == |lines|
    requires forall i :: 0 <= i < |elems| ==>
               IsLayout(gaps[i], |elems[i]|) && AllWellFormed(syn, elems[i]) && lines[i] == Layout(gaps[i], elems[i])
    ensures ElementsPerLine(syn, lines) == Flatten(elems)
  {
    hide Layout, IsLayout, AllWellFormed, Elements;
    if lines != [] {
      LayoutReadsBack(syn, gaps[0], elems[0]);
      EachLineReadsBack(syn, gaps[1..], elems[1..], lines[1..]);
    }
  }

  // ---------- the scanner ----------

  // field[start..i] lies within one element and leaves the scan in mode m.
  ghost predicate Within(syn: Syntax, field: string, start: nat, i: nat, m: Mode) {
    && start <= i <= |field|
    && NoSeparator(syn, field[start..i], Plain) && Ends(syn, field[start..i], Plain) == m
  }

  lemma WithinNext(syn: Syntax, field: string, start: nat, i: nat, m: Mode)
    requires Within(syn, field, start, i, m) && i < |field|
    requires !(m.Plain? && field[i] == ',')
    ensures Within(syn, field, start, i + 1, Next(syn, m, field[i]))
  {
    assert field[start..i + 1] == field[start..i] + [field[i]];
    EndsAppend(syn, field[start..i], [field[i]], Plain);
    SeparatorAppend(syn, field[start..i], [field[i]], Plain);
  }

  lemma WithinStart(syn: Syntax, field: string, start: nat)
    requires start <= |field|
    ensures Within(syn, field, start, start, Plain)
  {}

  lemma WithinSplit(syn: Syntax, field: string, start: nat, i: nat, out: seq<string>)
    requires Within(syn, field, start, i, Plain) && i < |field| && field[i] == ','
    ensures out + Elements(syn, field[start..]) == out + Element(field[start..i]) + Elements(syn, field[i + 1..])
  {
    hide Elements;
    assert field[start..] == field[start..i] + "," + field[i + 1..];
    FirstPiece(syn, field[start..i], field[i + 1..]);
  }

  lemma WithinEnd(syn: Syntax, field: string, start: nat, m: Mode, out: seq<string>)
    requires Within(syn, field, start, |field|, m)
    ensures out + Elements(syn, field[start..]) == out + Element(field[start..])
  {
    assert field[start..|field|] == field[start..];
    OnlyPiece(syn, field[start..]);
  }

  function QuoteMode(inQuote: bool): Mode { if inQuote then Quoted else Plain }

  // fieldList over the values of one field. The caller's loop body takes the elements in order, so
  // a caller that stops early has read a prefix of out.
  method Scan(lines: seq<string>, syn: Syntax) returns (out: seq<string>)
    ensures out == Elements(syn, Join(lines, ","))
  {
    hide Elements, Trim, Join, Within;
    var field := Join(lines, ",");
    out := [];
    var start, i, inQuote := 0, 0, false;
    WithinStart(syn, field, 0);
    assert field[0..] == field;
    while i < |field|
      invariant start <= i <= |field| + 1
      invariant inQuote ==> !syn.TokenList?
      invariant i <= |field| ==> Within(syn, field, start, i, QuoteMode(inQuote))
      invariant i > |field| ==> Within(syn, field, start, |field|, Escaped)
      invariant start <= |field| && Elements(syn, field) == out + Elements(syn, field[start..])
    {
      var c := field[i];
      if syn.QuotedStringList? && inQuote && c == '\\' {
        WithinNext(syn, field, start, i, Quoted);
        i := i + 1;
        if i < |field| {
          WithinNext(syn, field, start, i, Escaped);
        }
      } else if !syn.TokenList? && c == '"' {
        WithinNext(syn, field, start, i, QuoteMode(inQuote));
        inQuote := !inQuote;
      } else if c == ',' && !inQuote {
        WithinSplit(syn, field, start, i, out);
        WithinStart(syn, field, i + 1);
        var elem := Trim(field[start..i], IsOws);
        if elem != "" {
          out := out + [elem];
        }
        start := i + 1;
      } else {
        WithinNext(syn, field, start, i, QuoteMode(inQuote));
      }
      i := i + 1;
    }
    WithinEnd(syn, field, start, if i == |field| then QuoteMode(inQuote) else Escaped, out);
    var elem := Trim(field[start..], IsOws);
    if elem != "" {
      out := out + [elem];
    }
  }

  // ---------- byte classes (sections 5.6.2 and 5.6.4 of RFC 9110) ----------

  predicate TokenByte(c: char) {
    'a' <= c <= 'z' || 'A' <= c <= 'Z' || '0' <= c <= '9' ||
    c == '!' || c == '#' || c == '$' || c == '%' || c == '&' || c == '\'' || c == '*' || c == '+' ||
    c == '-' || c == '.' || c == '^' || c == '_' || c == '`' || c == '|' || c == '~'
  }

  predicate QdtextByte(c: char) {
    || c == '\t' || c == ' ' || c as int == 0x21 || 0x23 <= c as int <= 0x5b || 0x5d <= c as int <= 0x7e
    || c as int >= 0x80
  }

  predicate QuotedPairByte(c: char) {
    c == '\t' || (c as int >= 0x20 && c as int != 0x7f)
  }

  predicate IsToken(s: string) { s != "" && All(s, TokenByte) }

  function TokenLen(s: string): (n: nat)
    ensures n <= |s| && All(s[..n], TokenByte) && (n < |s| ==> !TokenByte(s[n]))
  {
    if s == "" || !TokenByte(s[0]) then 0
    else
      var n := TokenLen(s[1..]);
      assert forall i :: 1 <= i < n + 1 ==> s[i] == s[1..][..n][i - 1];
      1 + n
  }

  // The front token ends at the first byte outside the class, and only there.
  lemma {:induction false} TokenLenAt(s: string, n: nat)
    requires n <= |s| && All(s[..n], TokenByte) && (n < |s| ==> !TokenByte(s[n]))
    ensures TokenLen(s) == n
  {
    if n > 0 {
      assert s[..n][0] == s[0] && s[1..][..n - 1] == s[..n][1..];
      TokenLenAt(s[1..], n - 1);
    }
  }

  method ScanTokenLen(s: string) returns (n: nat)
    ensures n == TokenLen(s)
  {
    for i := 0 to |s|
      invariant All(s[..i], TokenByte)
    {
      if !TokenByte(s[i]) {
        TokenLenAt(s, i);
        return i;
      }
    }
    assert s[..|s|] == s;
    TokenLenAt(s, |s|);
    return |s|;
  }
}
