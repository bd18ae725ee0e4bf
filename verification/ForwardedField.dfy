/**
 clientip.go: a whole Forwarded field, from the list scanner to the parsed elements, with the bound
 on how many elements a forwarding field may hold.
 */
module ForwardedField {
  import opened Text
  import opened FieldList
  import opened NetAddr
  import opened ForwardedElement

  const MAX_HOPS: nat := 64

  // parseBounded's result: every element parsed, or one zero element for a list over the bound.
  function Bounded<T>(elems: seq<string>, parse: string -> T, zero: T): seq<T> {
    if |elems| > MAX_HOPS then [zero] else seq(|elems|, i requires 0 <= i < |elems| => parse(elems[i]))
  }

  method ParseBounded<T>(lines: seq<string>, syn: Syntax, parse: string -> T, zero: T) returns (r: seq<T>)
    ensures r == Bounded(Elements(syn, Join(lines, ",")), parse, zero)
  {
    hide Elements;
    var list := Scan(lines, syn);
    r := [];
    for i := 0 to |list|
      invariant |r| == i <= MAX_HOPS
      invariant forall k :: 0 <= k < i ==> r[k] == parse(list[k])
    {
      if |r| == MAX_HOPS {
        return [zero];
      }
      r := r + [parse(list[i])];
    }
  }

  // ---------- printed elements are list elements ----------

  // s neither separates nor leaves a quote open.
  predicate Whole(s: string) {
    NoSeparator(QuotedStringList, s, Plain) && Ends(QuotedStringList, s, Plain) == Plain
  }

  lemma WholeAppend(p: string, q: string)
    requires Whole(p) && Whole(q)
    ensures Whole(p + q)
  {
    SeparatorAppend(QuotedStringList, p, q, Plain);
    EndsAppend(QuotedStringList, p, q, Plain);
  }

  lemma {:induction false} PlainBytesWhole(s: string)
    requires forall i :: 0 <= i < |s| ==> s[i] != ',' && s[i] != '"'
    ensures Whole(s)
  {
    if s != "" { PlainBytesWhole(s[1..]); }
  }

  lemma {:induction false} QuotedRun(cs: seq<QChar>)
    requires WellFormedChars(cs)
    ensures NoSeparator(QuotedStringList, CharsText(cs) + "\"", Mode.Quoted)
    ensures Ends(QuotedStringList, CharsText(cs) + "\"", Mode.Quoted) == Plain
  {
    var s := CharsText(cs) + "\"";
    if cs == [] {
      assert s == "\"";
    } else {
      QuotedRun(cs[1..]);
      var tail := CharsText(cs[1..]) + "\"";
      match cs[0] {
        case Lit(c) => RunLit(c, tail);
          assert s == [c] + tail;
        case Esc(c) => RunEsc(c, tail);
          assert s == ['\\', c] + tail;
      }
    }
  }

  lemma RunLit(c: char, tail: string)
    requires QdtextByte(c)
    requires NoSeparator(QuotedStringList, tail, Mode.Quoted) && Ends(QuotedStringList, tail, Mode.Quoted) == Plain
    ensures NoSeparator(QuotedStringList, [c] + tail, Mode.Quoted)
            && Ends(QuotedStringList, [c] + tail, Mode.Quoted) == Plain
  {
    assert ([c] + tail)[1..] == tail;
    assert Next(QuotedStringList, Mode.Quoted, c) == Mode.Quoted;
  }

  lemma RunEsc(c: char, tail: string)
    requires NoSeparator(QuotedStringList, tail, Mode.Quoted) && Ends(QuotedStringList, tail, Mode.Quoted) == Plain
    ensures NoSeparator(QuotedStringList, ['\\', c] + tail, Mode.Quoted)
    ensures Ends(QuotedStringList, ['\\', c] + tail, Mode.Quoted) == Plain
  {
    var s := ['\\', c] + tail;
    assert s[1..] == [c] + tail && s[1..][1..] == tail;
    assert s[1..][0] == c;
  }

  lemma ValueWhole(v: Value)
    requires WellFormedValue(v)
    ensures Whole(ValueText(v)) && Edged(ValueText(v))
  {
    match v {
      case Token(t) => PlainBytesWhole(t);
      case Quoted(cs) =>
        QuotedRun(cs);
        var s := ValueText(v);
        assert s == "\"" + (CharsText(cs) + "\"");
        assert s[1..] == CharsText(cs) + "\"";
    }
  }

  // Trimming leaves s alone.
  predicate Edged(s: string) {
    s != "" && !IsOws(s[0]) && !IsOws(s[|s| - 1])
  }

  lemma PairWhole(p: Pair)
    requires WellFormedPair(p)
    ensures Whole(PairText(p)) && Edged(PairText(p))
  {
    hide ValueText, WellFormedValue, Whole;
    ValueWhole(p.value);
    PlainBytesWhole(p.name + "=");
    WholeAppend(p.name + "=", ValueText(p.value));
  }

  lemma {:induction false} ElementWhole(slots: Slots)
    requires slots != [] && AllPairsWellFormed(slots)
    ensures Whole(ElementText(slots))
    ensures ElementText(slots) != "" ==> Edged(ElementText(slots))
  {
    hide PairText, WellFormedPair, Whole;
    PlainBytesWhole("");
    PlainBytesWhole(";");
    if slots[0].Some? { PairWhole(slots[0].value); }
    if |slots| > 1 {
      ElementWhole(slots[1..]);
      var rest := ElementText(slots[1..]);
      WholeAppend(";", rest);
      SlotsStep(slots);
      if slots[0].Some? { WholeAppend(PairText(slots[0].value), ";" + rest); }
    }
  }

  function Texts(elems: seq<Slots>): seq<string> {
    seq(|elems|, i requires 0 <= i < |elems| => ElementText(elems[i]))
  }

  // Elements a sender may print: well-formed pairs, not all slots empty.
  predicate Printable(elems: seq<Slots>) {
    forall i :: 0 <= i < |elems| ==> elems[i] != [] && AllPairsWellFormed(elems[i]) && ElementText(elems[i]) != ""
  }

  lemma TextsWellFormed(elems: seq<Slots>)
    requires Printable(elems)
    ensures AllWellFormed(QuotedStringList, Texts(elems))
  {
    hide ElementText, AllPairsWellFormed, FirstSeparator, Ends;
    forall i | 0 <= i < |elems| ensures WellFormed(QuotedStringList, Texts(elems)[i]) { ElementWhole(elems[i]); }
  }

  lemma {:induction false} TextsFlatten(elems: seq<seq<Slots>>)
    ensures Flatten(seq(|elems|, i requires 0 <= i < |elems| => Texts(elems[i]))) == Texts(Flatten(elems))
  {
    if elems != [] {
      TextsFlatten(elems[1..]);
      var ts := seq(|elems|, i requires 0 <= i < |elems| => Texts(elems[i]));
      assert ts[1..] == seq(|elems[1..]|, i requires 0 <= i < |elems[1..]| => Texts(elems[1..][i]));
      assert Texts(elems[0] + Flatten(elems[1..])) == Texts(elems[0]) + Texts(Flatten(elems[1..]));
    }
  }

  // A Forwarded field, printed as lines of elements with any layout of each line, reads back through
  // the scanner and the parser as exactly those elements and the addresses they name; over 64 of
  // them it reads as one invalid element.
  lemma FieldReadsBack(parse: string -> Option<Addr>, lines: seq<string>, gaps: seq<seq<string>>,
                       elems: seq<seq<Slots>>,
                       addrs: seq<Addr>)
    requires |lines| == |gaps| == |elems|
    requires forall i :: 0 <= i < |lines| ==>
               Printable(elems[i]) && IsLayout(gaps[i], |elems[i]|) && lines[i] == Layout(gaps[i], Texts(elems[i]))
    requires |addrs| == |Flatten(elems)|
    requires forall i :: 0 <= i < |addrs| ==>
            Derives(parse, ElementText(Flatten(elems)[i]), Flatten(elems)[i], addrs[i])
    ensures Bounded(Elements(QuotedStringList, Join(lines, ",")), s => ParseElement(parse, s),
                    ForwardedElement(Zero, false)) ==
            if |addrs| > MAX_HOPS then [ForwardedElement(Zero, false)]
            else seq(|addrs|, i requires 0 <= i < |addrs| => ForwardedElement(addrs[i], true))
  {
    hide ElementText, Derives, Elements, Layout, IsLayout, Join, Printable, ParseElement, Flatten;
    var texts := seq(|elems|, i requires 0 <= i < |elems| => Texts(elems[i]));
    forall i | 0 <= i < |lines| ensures AllWellFormed(QuotedStringList, texts[i]) { TextsWellFormed(elems[i]); }
    LaidOutLinesReadBack(QuotedStringList, gaps, texts, lines);
    TextsFlatten(elems);
    forall i | 0 <= i < |addrs|
      ensures ParseElement(parse, ElementText(Flatten(elems)[i])) == ForwardedElement(addrs[i], true)
    {
      ElementIffGrammar(parse, ElementText(Flatten(elems)[i]), addrs[i]);
    }
  }
}
