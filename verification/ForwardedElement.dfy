/**
 clientip.go: the forwarded-element parser of section 4 of RFC 7239, the grammar it accepts, and the
 printer it reads back.
 */
module ForwardedElement {
  import opened Text
  import opened AsciiFold
  import opened FieldList
  import opened NetAddr
  import opened ForwardedNode

  const MAX_PAIRS: nat := 16

  // ---------- the grammar and its printer ----------

  // One character of a quoted-string, as itself or as a quoted-pair.
  datatype QChar = Lit(c: char) | Esc(c: char)

  datatype Value = Token(text: string) | Quoted(chars: seq<QChar>)

  datatype Pair = Pair(name: string, value: Value)

  // A slot between two ';' holds a pair or nothing.
  type Slots = seq<Option<Pair>>

  predicate WellFormedChar(q: QChar) {
    match q
    case Lit(c) => QdtextByte(c)
    case Esc(c) => QuotedPairByte(c)
  }

  predicate WellFormedChars(cs: seq<QChar>) {
    forall i :: 0 <= i < |cs| ==> WellFormedChar(cs[i])
  }

  predicate WellFormedValue(v: Value) {
    match v
    case Token(t) => IsToken(t)
    case Quoted(cs) => WellFormedChars(cs)
  }

  predicate WellFormedPair(p: Pair) { IsToken(p.name) && WellFormedValue(p.value) }

  function CharsText(cs: seq<QChar>): string {
    if cs == [] then ""
    else (match cs[0] case Lit(c) => [c] case Esc(c) => ['\\', c]) + CharsText(cs[1..])
  }

  function Decoded(cs: seq<QChar>): string {
    if cs == [] then "" else [cs[0].c] + Decoded(cs[1..])
  }

  function ValueText(v: Value): string {
    match v
    case Token(t) => t
    case Quoted(cs) => "\"" + CharsText(cs) + "\""
  }

  function ValueOf(v: Value): string {
    match v
    case Token(t) => t
    case Quoted(cs) => Decoded(cs)
  }

  function PairText(p: Pair): string { p.name + "=" + ValueText(p.value) }

  function SlotText(s: Option<Pair>): string {
    match s
    case None => ""
    case Some(p) => PairText(p)
  }

  // forwarded-element = [ forwarded-pair ] *( ";" [ forwarded-pair ] )
  function ElementText(slots: Slots): string {
    if |slots| == 0 then ""
    else if |slots| == 1 then SlotText(slots[0])
    else SlotText(slots[0]) + ";" + ElementText(slots[1..])
  }

  function Pairs(slots: Slots): seq<Pair> {
    if slots == [] then []
    else (match slots[0] case None => [] case Some(p) => [p]) + Pairs(slots[1..])
  }

  predicate AllPairsWellFormed(slots: Slots) {
    forall i :: 0 <= i < |slots| && slots[i].Some? ==> WellFormedPair(slots[i].value)
  }

  predicate IsNodeName(name: string) { EqualFold(name, "for") || EqualFold(name, "by") }

  // The limits an element keeps: at most 16 pairs, no name twice, nodes under "for" and "by".
  ghost predicate ValidPairs(parse: string -> Option<Addr>, pairs: seq<Pair>) {
    && |pairs| <= MAX_PAIRS
    && (forall i, j :: 0 <= i < j < |pairs| ==> !EqualFold(pairs[i].name, pairs[j].name))
    && (forall i :: 0 <= i < |pairs| && IsNodeName(pairs[i].name) ==> ParseNode(parse, ValueOf(pairs[i].value)).Some?)
  }

  // The address the element's "for" pair names.
  ghost predicate NamesAddress(parse: string -> Option<Addr>, pairs: seq<Pair>, a: Addr) {
    if exists i :: 0 <= i < |pairs| && EqualFold(pairs[i].name, "for") then
      exists i :: 0 <= i < |pairs| && EqualFold(pairs[i].name, "for")
                  && ParseNode(parse, ValueOf(pairs[i].value)) == Some(a)
    else a == Zero
  }

  // ---------- the parser ----------

  // The rest of a quoted-string after its opening quote: its decoded text and what follows it.
  function CutQuoted(s: string): (r: Option<(string, string)>)
    ensures r.Some? ==> |r.value.1| < |s|
  {
    if s == "" then None
    else if s[0] == '"' then Some(("", s[1..]))
    else if s[0] == '\\' && |s| > 1 && QuotedPairByte(s[1]) then Push(s[1], CutQuoted(s[2..]))
    else if QdtextByte(s[0]) then Push(s[0], CutQuoted(s[1..]))
    else None
  }

  function Push(c: char, r: Option<(string, string)>): Option<(string, string)> {
    if r.None? then None else Some(([c] + r.value.0, r.value.1))
  }

  function CutValue(s: string): (r: Option<(string, string)>)
    ensures r.Some? ==> |r.value.1| < |s|
  {
    if HasPrefix(s, "\"") then CutQuoted(s[1..])
    else
      var n := TokenLen(s);
      if n > 0 then Some((s[..n], s[n..])) else None
  }

  datatype CutPairResult = CutPairResult(name: string, value: string, rest: string)

  function CutPair(s: string): (r: Option<CutPairResult>)
    ensures r.Some? ==> |r.value.rest| < |s|
  {
    var n := TokenLen(s);
    if n == 0 || !HasPrefix(s[n..], "=") then None
    else
      match CutValue(s[n + 1..])
      case None => None
      case Some((value, rest)) =>
        if rest != "" && rest[0] != ';' then None else Some(CutPairResult(s[..n], value, rest))
  }

  function Parse(parse: string -> Option<Addr>, rest: string, seen: seq<string>, forNode: Addr): Option<Addr>
    decreases |rest|
  {
    if rest == "" then Some(forNode)
    else if rest[0] == ';' then Parse(parse, rest[1..], seen, forNode)
    else
      match CutPair(rest)
      case None => None
      case Some(p) =>
        match Accept(parse, seen, forNode, p.name, p.value)
        case None => None
        case Some(a) => Parse(parse, p.rest, seen + [p.name], a)
  }

  // One pair after the names already seen: the forNode it leaves, or None.
  function Accept(parse: string -> Option<Addr>, seen: seq<string>, forNode: Addr, name: string,
                  value: string): Option<Addr> {
    if |seen| == MAX_PAIRS || (exists i :: 0 <= i < |seen| && EqualFold(seen[i], name)) then None
    else if EqualFold(name, "for") then ParseNode(parse, value)
    else if EqualFold(name, "by") && ParseNode(parse, value).None? then None
    else Some(forNode)
  }

  datatype ForwardedElement = ForwardedElement(forNode: Addr, valid: bool)

  function ParseElement(parse: string -> Option<Addr>, elem: string): ForwardedElement {
    match Parse(parse, elem, [], Zero)
    case None => ForwardedElement(Zero, false)
    case Some(a) => ForwardedElement(a, true)
  }

  // ---------- the loops ----------

  function Prepend(b: string, r: Option<(string, string)>): Option<(string, string)> {
    if r.None? then None else Some((b + r.value.0, r.value.1))
  }

  lemma PrependPush(b: string, c: char, r: Option<(string, string)>)
    ensures Prepend(b, Push(c, r)) == Prepend(b + [c], r)
  {
    if r.Some? { assert b + ([c] + r.value.0) == (b + [c]) + r.value.0; }
  }

  // cutForwardedValue
  method CutForwardedValue(s: string) returns (r: Option<(string, string)>)
    ensures r == CutValue(s)
  {
    if !HasPrefix(s, "\"") {
      var n := ScanTokenLen(s);
      return if n > 0 then Some((s[..n], s[n..])) else None;
    }
    hide QdtextByte, QuotedPairByte;
    var b := "";
    var i := 1;
    assert Prepend("", CutQuoted(s[1..])) == CutQuoted(s[1..]) by {
      if CutQuoted(s[1..]).Some? { assert "" + CutQuoted(s[1..]).value.0 == CutQuoted(s[1..]).value.0; }
    }
    while i < |s|
      invariant 1 <= i <= |s|
      invariant CutQuoted(s[1..]) == Prepend(b, CutQuoted(s[i..]))
    {
      var c := s[i];
      assert s[i..][1..] == s[i + 1..];
      if c == '"' {
        assert b + "" == b;
        return Some((b, s[i + 1..]));
      } else if c == '\\' && i + 1 < |s| && QuotedPairByte(s[i + 1]) {
        assert s[i..][2..] == s[i + 2..];
        PrependPush(b, s[i + 1], CutQuoted(s[i + 2..]));
        i := i + 1;
        b := b + [s[i]];
      } else if QdtextByte(c) {
        PrependPush(b, c, CutQuoted(s[i + 1..]));
        b := b + [c];
      } else {
        return None;
      }
      i := i + 1;
    }
    return None;
  }

  // cutForwardedPair
  method CutForwardedPair(s: string) returns (r: Option<CutPairResult>)
    ensures r == CutPair(s)
  {
    hide TokenLen, CutValue;
    var n := ScanTokenLen(s);
    var (after, eq) := CutPrefix(s[n..], "=");
    if n == 0 || !eq {
      return None;
    }
    assert s[n..][1..] == s[n + 1..];
    var cut := CutForwardedValue(after);
    if cut.None? || (cut.value.1 != "" && cut.value.1[0] != ';') {
      return None;
    }
    return Some(CutPairResult(s[..n], cut.value.0, cut.value.1));
  }

  // parseForwardedElement
  method ParseForwardedElement(parse: string -> Option<Addr>, elem: string) returns (r: ForwardedElement)
    ensures r == ParseElement(parse, elem)
  {
    hide CutPair, ParseNode, EqualFold;
    var forNode := Zero;
    var seen: seq<string> := [];
    var rest := elem;
    while rest != ""
      invariant |seen| <= MAX_PAIRS
      invariant Parse(parse, elem, [], Zero) == Parse(parse, rest, seen, forNode)
      decreases |rest|
    {
      var (after, ok) := CutPrefix(rest, ";");
      if ok {
        rest := after;
        continue;
      }
      if |seen| == MAX_PAIRS {
        return ForwardedElement(Zero, false);
      }
      var p := CutForwardedPair(rest);
      if p.None? {
        return ForwardedElement(Zero, false);
      }
      var repeated := SeenBefore(seen, p.value.name);
      if repeated {
        return ForwardedElement(Zero, false);
      }
      var isFor := EqualASCIIFold(p.value.name, "for");
      var isBy := EqualASCIIFold(p.value.name, "by");
      if isFor {
        var node := ParseNode(parse, p.value.value);
        if node.None? {
          return ForwardedElement(Zero, false);
        }
        forNode := node.value;
      } else if isBy {
        var node := ParseNode(parse, p.value.value);
        if node.None? {
          return ForwardedElement(Zero, false);
        }
      }
      seen, rest := seen + [p.value.name], p.value.rest;
    }
    return ForwardedElement(forNode, true);
  }

  method SeenBefore(seen: seq<string>, name: string) returns (found: bool)
    ensures found <==> exists i :: 0 <= i < |seen| && EqualFold(seen[i], name)
  {
    for i := 0 to |seen|
      invariant forall k :: 0 <= k < i ==> !EqualFold(seen[k], name)
    {
      var same := EqualASCIIFold(seen[i], name);
      if same {
        return true;
      }
    }
    return false;
  }

  // ---------- values ----------

  // What one character of a quoted-string adds in front of the rest.
  lemma QuotedStep(q: QChar, tail: string)
    requires WellFormedChar(q)
    ensures CutQuoted((match q case Lit(c) => [c] case Esc(c) => ['\\', c]) + tail) == Push(q.c, CutQuoted(tail))
  {
    match q {
      case Lit(c) => assert ([c] + tail)[1..] == tail;
      case Esc(c) => assert (['\\', c] + tail)[2..] == tail;
    }
  }

  lemma {:induction false} QuotedReadsBack(cs: seq<QChar>, rest: string)
    requires WellFormedChars(cs)
    ensures CutQuoted(CharsText(cs) + "\"" + rest) == Some((Decoded(cs), rest))
  {
    hide CutQuoted, WellFormedChar;
    if cs == [] {
      CutQuote(rest);
      assert "" + "\"" + rest == "\"" + rest;
    } else {
      QuotedReadsBack(cs[1..], rest);
      var tail := CharsText(cs[1..]) + "\"" + rest;
      QuotedStep(cs[0], tail);
      var head := match cs[0] case Lit(c) => [c] case Esc(c) => ['\\', c];
      assert CharsText(cs) + "\"" + rest == head + tail;
    }
  }

  lemma CutQuote(rest: string)
    ensures CutQuoted("\"" + rest) == Some(("", rest))
  {
    assert ("\"" + rest)[1..] == rest;
  }

  lemma {:induction false} QuotedSound(s: string) returns (cs: seq<QChar>)
    requires CutQuoted(s).Some?
    ensures WellFormedChars(cs) && Decoded(cs) == CutQuoted(s).value.0
    ensures s == CharsText(cs) + "\"" + CutQuoted(s).value.1
    decreases |s|
  {
    hide QdtextByte, QuotedPairByte;
    if s[0] == '"' {
      cs := [];
      assert s == "" + "\"" + s[1..];
    } else if s[0] == '\\' && |s| > 1 && QuotedPairByte(s[1]) {
      var more := QuotedSound(s[2..]);
      cs := [Esc(s[1])] + more;
      Prefixed(Esc(s[1]), more, CutQuoted(s[2..]).value.1);
      assert s == ['\\', s[1]] + s[2..];
    } else {
      var more := QuotedSound(s[1..]);
      cs := [Lit(s[0])] + more;
      Prefixed(Lit(s[0]), more, CutQuoted(s[1..]).value.1);
      assert s == [s[0]] + s[1..];
    }
  }

  lemma Prefixed(q: QChar, cs: seq<QChar>, rest: string)
    ensures var head := match q case Lit(c) => [c] case Esc(c) => ['\\', c];
            CharsText([q] + cs) + "\"" + rest == head + (CharsText(cs) + "\"" + rest)
    ensures Decoded([q] + cs) == [q.c] + Decoded(cs)
  {
    assert ([q] + cs)[1..] == cs;
  }

  lemma TokenPrefix(t: string, rest: string)
    requires All(t, TokenByte) && (rest != "" ==> !TokenByte(rest[0]))
    ensures TokenLen(t + rest) == |t|
  {
    assert (t + rest)[..|t|] == t;
    TokenLenAt(t + rest, |t|);
  }

  lemma ValueReadsBack(v: Value, rest: string)
    requires WellFormedValue(v) && (rest != "" ==> rest[0] == ';')
    ensures CutValue(ValueText(v) + rest) == Some((ValueOf(v), rest))
  {
    hide *;
    match v {
      case Token(t) => TokenReadsBack(t, rest);
      case Quoted(cs) => QuotedStringReadsBack(cs, rest);
    }
  }

  lemma TokenReadsBack(t: string, rest: string)
    requires WellFormedValue(Token(t)) && (rest != "" ==> rest[0] == ';')
    ensures CutValue(ValueText(Token(t)) + rest) == Some((ValueOf(Token(t)), rest))
  {
    var s := t + rest;
    TokenPrefix(t, rest);
    assert s[0] == t[0];
    assert s[..|t|] == t && s[|t|..] == rest;
  }

  lemma QuotedStringReadsBack(cs: seq<QChar>, rest: string)
    requires WellFormedValue(Value.Quoted(cs))
    ensures CutValue(ValueText(Value.Quoted(cs)) + rest) == Some((ValueOf(Value.Quoted(cs)), rest))
  {
    hide CutQuoted, CharsText, Decoded;
    var s := ValueText(Value.Quoted(cs)) + rest;
    QuotedReadsBack(cs, rest);
    assert s[0] == '"';
    assert s[1..] == CharsText(cs) + "\"" + rest;
  }

  lemma ValueSound(s: string) returns (v: Value)
    requires CutValue(s).Some?
    ensures WellFormedValue(v) && ValueOf(v) == CutValue(s).value.0
    ensures s == ValueText(v) + CutValue(s).value.1
  {
    if HasPrefix(s, "\"") {
      var cs := QuotedSound(s[1..]);
      v := Value.Quoted(cs);
      assert s == "\"" + s[1..];
    } else {
      v := Token(s[..TokenLen(s)]);
    }
  }

  // ---------- pairs ----------

  lemma PairReadsBack(p: Pair, rest: string)
    requires WellFormedPair(p) && (rest != "" ==> rest[0] == ';')
    ensures CutPair(PairText(p) + rest) == Some(CutPairResult(p.name, ValueOf(p.value), rest))
    ensures PairText(p) != "" && PairText(p)[0] != ';'
  {
    hide TokenLen, CutValue, ValueText, ValueOf, WellFormedValue;
    var s := PairText(p) + rest;
    var tail := "=" + (ValueText(p.value) + rest);
    assert s == p.name + tail;
    TokenPrefix(p.name, tail);
    assert s[..|p.name|] == p.name && s[|p.name|..] == tail;
    assert tail[1..] == ValueText(p.value) + rest;
    assert s[|p.name| + 1..] == s[|p.name|..][1..];
    ValueReadsBack(p.value, rest);
    assert PairText(p)[0] == p.name[0];
  }

  lemma PairSound(s: string) returns (p: Pair)
    requires CutPair(s).Some?
    ensures var c := CutPair(s).value;
            WellFormedPair(p) && p.name == c.name && ValueOf(p.value) == c.value
            && s == PairText(p) + c.rest && (c.rest != "" ==> c.rest[0] == ';')
  {
    hide CutValue, ValueText, ValueOf, WellFormedValue;
    var n := TokenLen(s);
    var v := ValueSound(s[n + 1..]);
    p := Pair(s[..n], v);
    assert s == s[..n] + "=" + s[n + 1..];
  }

  // ---------- elements ----------

  // The parser's pass over pairs already cut.
  function Fold(parse: string -> Option<Addr>, pairs: seq<Pair>, seen: seq<string>, forNode: Addr): Option<Addr> {
    if pairs == [] then Some(forNode)
    else
      match Accept(parse, seen, forNode, pairs[0].name, ValueOf(pairs[0].value))
      case None => None
      case Some(a) => Fold(parse, pairs[1..], seen + [pairs[0].name], a)
  }

  lemma SlotsStep(slots: Slots)
    requires |slots| > 1
    ensures slots[0].None? ==> ElementText(slots) == ";" + ElementText(slots[1..]) && Pairs(slots) == Pairs(slots[1..])
    ensures slots[0].Some? ==>
              && ElementText(slots) == PairText(slots[0].value) + (";" + ElementText(slots[1..]))
              && Pairs(slots) == [slots[0].value] + Pairs(slots[1..])
  {
    hide PairText;
    assert slots[0].None? ==> [] + Pairs(slots[1..]) == Pairs(slots[1..]);
  }

  lemma ParsePair(parse: string -> Option<Addr>, p: Pair, rest: string, seen: seq<string>, forNode: Addr)
    requires WellFormedPair(p) && (rest != "" ==> rest[0] == ';')
    ensures Parse(parse, PairText(p) + rest, seen, forNode) ==
            match Accept(parse, seen, forNode, p.name, ValueOf(p.value))
            case None => None
            case Some(a) => Parse(parse, rest, seen + [p.name], a)
  {
    hide CutPair, PairText, WellFormedPair, Accept, ValueOf;
    PairReadsBack(p, rest);
    assert (PairText(p) + rest)[0] == PairText(p)[0];
  }

  lemma ParseSemicolon(parse: string -> Option<Addr>, rest: string, seen: seq<string>, forNode: Addr)
    ensures Parse(parse, ";" + rest, seen, forNode) == Parse(parse, rest, seen, forNode)
  {
    assert (";" + rest)[1..] == rest;
  }

  lemma {:induction false} ParseComplete(parse: string -> Option<Addr>, slots: Slots, seen: seq<string>, forNode: Addr)
    requires slots != [] && AllPairsWellFormed(slots)
    ensures Parse(parse, ElementText(slots), seen, forNode) == Fold(parse, Pairs(slots), seen, forNode)
  {
    hide PairText, WellFormedPair, Accept, ValueOf, Parse;
    ParseNothing(parse, seen, forNode);
    if |slots| == 1 {
      assert Pairs(slots[1..]) == [];
      if slots[0].Some? {
        var p := slots[0].value;
        assert PairText(p) + "" == PairText(p);
        ParsePair(parse, p, "", seen, forNode);
        match Accept(parse, seen, forNode, p.name, ValueOf(p.value))
        case None =>
        case Some(a) => ParseNothing(parse, seen + [p.name], a);
      }
    } else {
      SlotsStep(slots);
      var rest := slots[1..];
      if slots[0].None? {
        ParseSemicolon(parse, ElementText(rest), seen, forNode);
        ParseComplete(parse, rest, seen, forNode);
      } else {
        var p := slots[0].value;
        ParsePair(parse, p, ";" + ElementText(rest), seen, forNode);
        match Accept(parse, seen, forNode, p.name, ValueOf(p.value))
        case None =>
        case Some(a) =>
          ParseSemicolon(parse, ElementText(rest), seen + [p.name], a);
          ParseComplete(parse, rest, seen + [p.name], a);
      }
    }
  }

  lemma ParseNothing(parse: string -> Option<Addr>, seen: seq<string>, forNode: Addr)
    ensures Parse(parse, "", seen, forNode) == Some(forNode)
  {}

  lemma {:induction false} ParseSound(parse: string -> Option<Addr>, rest: string, seen: seq<string>, forNode: Addr)
    returns (slots: Slots)
    requires Parse(parse, rest, seen, forNode).Some?
    ensures slots != [] && AllPairsWellFormed(slots) && ElementText(slots) == rest
    decreases |rest|
  {
    hide PairText, WellFormedPair, Accept, ValueOf, CutPair;
    if rest == "" {
      slots := [None];
    } else if rest[0] == ';' {
      var more := ParseSound(parse, rest[1..], seen, forNode);
      slots := [None] + more;
      SlotsStep(slots);
    } else {
      var p := PairSound(rest);
      var after := CutPair(rest).value.rest;
      var a := Accept(parse, seen, forNode, p.name, ValueOf(p.value)).value;
      if after == "" {
        slots := [Some(p)];
      } else {
        assert after == ";" + after[1..];
        var more := ParseSound(parse, after[1..], seen + [p.name], a);
        slots := [Some(p)] + more;
        SlotsStep(slots);
      }
    }
  }

  function Names(pairs: seq<Pair>): seq<string> {
    seq(|pairs|, i requires 0 <= i < |pairs| => pairs[i].name)
  }

  // Accepting one more pair is the limits and the address of the pairs with it added.
  lemma AcceptMeaning(parse: string -> Option<Addr>, q: seq<Pair>, f: Addr, p: Pair, a: Addr)
    requires ValidPairs(parse, q) && NamesAddress(parse, q, f)
    ensures Accept(parse, Names(q), f, p.name, ValueOf(p.value)) == Some(a) <==>
            ValidPairs(parse, q + [p]) && NamesAddress(parse, q + [p], a)
  {
    hide ParseNode, EqualFold, ValueOf;
    FoldIsTransitive();
    var all := q + [p];
    var n := |q|;
    assert all[n] == p;
    assert forall i :: 0 <= i < n ==> all[i] == q[i] && Names(q)[i] == q[i].name;
    if ValidPairs(parse, all) {
      assert forall i :: 0 <= i < n ==> !EqualFold(all[i].name, all[n].name);
      assert IsNodeName(p.name) ==> ParseNode(parse, ValueOf(all[n].value)).Some?;
      OneFor(parse, q, f, p, a);
    }
  }

  lemma FoldIsTransitive()
    ensures forall a, b, c :: EqualFold(a, c) && EqualFold(b, c) ==> EqualFold(a, b)
    ensures !EqualFold("for", "by")
  {
    assert |Lower("for")| == 3 && |Lower("by")| == 2;
  }

  lemma OneFor(parse: string -> Option<Addr>, q: seq<Pair>, f: Addr, p: Pair, a: Addr)
    requires ValidPairs(parse, q + [p]) && NamesAddress(parse, q, f)
    ensures NamesAddress(parse, q + [p], a) <==>
            if EqualFold(p.name, "for") then ParseNode(parse, ValueOf(p.value)) == Some(a) else a == f
  {
    hide ParseNode, EqualFold, ValueOf;
    FoldIsTransitive();
    var all := q + [p];
    var n := |q|;
    assert all[n] == p && forall i :: 0 <= i < n ==> all[i] == q[i];
    if EqualFold(p.name, "for") {
      assert forall i :: 0 <= i < |all| && EqualFold(all[i].name, "for") ==> i == n by {
        forall i | 0 <= i < n ensures !EqualFold(all[i].name, "for") { assert !EqualFold(all[i].name, all[n].name); }
      }
    } else if k :| 0 <= k < n && EqualFold(q[k].name, "for") && ParseNode(parse, ValueOf(q[k].value)) == Some(f) {
      assert EqualFold(all[k].name, "for");
      assert forall i :: 0 <= i < |all| && EqualFold(all[i].name, "for") ==> EqualFold(all[i].name, all[k].name);
    }
  }

  lemma {:induction false} FoldMeaning(parse: string -> Option<Addr>, pairs: seq<Pair>, k: nat, f: Addr, a: Addr)
    requires k <= |pairs|
    requires ValidPairs(parse, pairs[..k]) && NamesAddress(parse, pairs[..k], f)
    ensures Fold(parse, pairs[k..], Names(pairs[..k]), f) == Some(a) <==>
            ValidPairs(parse, pairs) && NamesAddress(parse, pairs, a)
    decreases |pairs| - k
  {
    hide Accept, ParseNode, EqualFold, ValueOf, ValidPairs, NamesAddress;
    if k == |pairs| {
      assert pairs[..k] == pairs;
      OneAddress(parse, pairs, f, a);
    } else {
      var q, p := pairs[..k], pairs[k];
      assert pairs[..k + 1] == q + [p];
      assert Names(q + [p]) == Names(q) + [p.name];
      assert pairs[k..][0] == p && pairs[k..][1..] == pairs[k + 1..];
      match Accept(parse, Names(q), f, p.name, ValueOf(p.value)) {
        case Some(b) =>
          AcceptMeaning(parse, q, f, p, b);
          FoldMeaning(parse, pairs, k + 1, b, a);
        case None =>
          if ValidPairs(parse, pairs) {
            ValidPrefix(parse, pairs, k + 1);
            var b := SomeAddress(parse, q, f, p);
            AcceptMeaning(parse, q, f, p, b);
          }
      }
    }
  }

  lemma ValidPrefix(parse: string -> Option<Addr>, pairs: seq<Pair>, k: nat)
    requires k <= |pairs| && ValidPairs(parse, pairs)
    ensures ValidPairs(parse, pairs[..k])
  {}

  lemma OneAddress(parse: string -> Option<Addr>, pairs: seq<Pair>, f: Addr, a: Addr)
    requires ValidPairs(parse, pairs) && NamesAddress(parse, pairs, f)
    ensures NamesAddress(parse, pairs, a) <==> a == f
  {
    hide ParseNode, EqualFold, ValueOf;
    FoldIsTransitive();
  }

  lemma SomeAddress(parse: string -> Option<Addr>, q: seq<Pair>, f: Addr, p: Pair) returns (a: Addr)
    requires ValidPairs(parse, q + [p]) && NamesAddress(parse, q, f)
    ensures NamesAddress(parse, q + [p], a)
  {
    hide ParseNode, EqualFold, ValueOf, ValidPairs, NamesAddress;
    a := f;
    if EqualFold(p.name, "for") {
      NodePresent(parse, q, p);
      a := ParseNode(parse, ValueOf(p.value)).value;
    }
    OneFor(parse, q, f, p, a);
  }

  lemma NodePresent(parse: string -> Option<Addr>, q: seq<Pair>, p: Pair)
    requires ValidPairs(parse, q + [p]) && EqualFold(p.name, "for")
    ensures ParseNode(parse, ValueOf(p.value)).Some?
  {
    hide ParseNode, EqualFold, ValueOf;
    assert (q + [p])[|q|] == p;
  }

  // The text derives from the grammar, within the limits, with forNode a.
  ghost predicate Derives(parse: string -> Option<Addr>, elem: string, slots: Slots, a: Addr) {
    && slots != [] && AllPairsWellFormed(slots) && ElementText(slots) == elem
    && ValidPairs(parse, Pairs(slots)) && NamesAddress(parse, Pairs(slots), a)
  }

  // An element parses to an address exactly when it derives from the grammar with that address; it
  // is invalid exactly when it derives from nothing.
  lemma ElementIffGrammar(parse: string -> Option<Addr>, elem: string, a: Addr)
    ensures ParseElement(parse, elem) == ForwardedElement(a, true) <==> exists slots :: Derives(parse, elem, slots, a)
    ensures !ParseElement(parse, elem).valid ==> ParseElement(parse, elem).forNode == Zero
  {
    hide Parse, Fold, ElementText, Pairs, AllPairsWellFormed, ValidPairs, NamesAddress;
    if ParseElement(parse, elem) == ForwardedElement(a, true) {
      var slots := ParseSound(parse, elem, [], Zero);
      DerivesIff(parse, slots, a);
      assert Derives(parse, elem, slots, a);
    }
    if slots :| Derives(parse, elem, slots, a) {
      DerivesIff(parse, slots, a);
    }
  }

  lemma DerivesIff(parse: string -> Option<Addr>, slots: Slots, a: Addr)
    requires slots != [] && AllPairsWellFormed(slots)
    ensures Parse(parse, ElementText(slots), [], Zero) == Some(a) <==> Derives(parse, ElementText(slots), slots, a)
  {
    hide Parse, Fold, ElementText, Pairs, AllPairsWellFormed, EqualFold, ParseNode;
    ParseComplete(parse, slots, [], Zero);
    var ps := Pairs(slots);
    assert ps[..0] == [] && ps[0..] == ps && Names([]) == [];
    FoldMeaning(parse, ps, 0, Zero, a);
  }
}
