/**
 hostallowlist.go: the canonical form of a Host value, exactly which values share one, and the
 allowlist keyed on it. net.ParseIP followed by IP.String is a parameter, ipText; Lawful says what is
 assumed of it.
 */
module HostAllowlist {
  import opened Text
  import opened AsciiFold

  ghost predicate Lawful(ipText: string -> Option<string>) {
    forall s :: ipText(s).Some? ==>
      && ipText(ipText(s).value) == ipText(s)
      && s != "" && s[0] != '[' && s[|s| - 1] != '.' && ']' !in s && ipText(s).value != ""
      && (':' !in s ==> All(s, c => IsDigit(c) || c == '.'))
      && (':' in s ==> ':' in s[IndexOf(s, ':') + 1..])
  }

  // ---------- ports and names ----------

  function Decimal(s: string): nat {
    if s == "" || !IsDigit(s[|s| - 1]) then 0
    else 10 * Decimal(s[..|s| - 1]) + (s[|s| - 1] as int - '0' as int)
  }

  predicate PortOk(port: string) {
    1 <= |port| <= 5 && All(port, IsDigit) && Decimal(port) <= 65535
  }

  // validPort
  method ValidPort(port: string) returns (ok: bool)
    ensures ok <==> PortOk(port)
  {
    if port == "" || |port| > 5 {
      return false;
    }
    var n := 0;
    for i := 0 to |port|
      invariant All(port[..i], IsDigit) && n == Decimal(port[..i])
    {
      var c := port[i];
      assert port[..i + 1][..i] == port[..i];
      if c < '0' || c > '9' {
        assert !IsDigit(port[i]);
        return false;
      }
      n := n * 10 + (c as int - '0' as int);
    }
    assert port[..|port|] == port;
    return n <= 65535;
  }

  predicate LabelByte(c: char) { IsDigit(c) || 'a' <= c <= 'z' || c == '-' || c == '_' }

  // The labels between the dots.
  function Labels(host: string): (r: seq<string>)
    ensures |r| > 0
    decreases |host|
  {
    var cut := CutAt(host, '.');
    if cut.found then [cut.before] + Labels(cut.after) else [host]
  }

  predicate LabelOk(part: string) { 0 < |part| <= 63 && All(part, LabelByte) }

  predicate Numeric(part: string) { All(part, IsDigit) }

  predicate HostnameOk(host: string) {
    && (forall i :: 0 <= i < |Labels(host)| ==> LabelOk(Labels(host)[i]))
    && (exists i :: 0 <= i < |Labels(host)| && !Numeric(Labels(host)[i]))
  }

  // validHostname
  method ValidHostname(host: string) returns (ok: bool)
    ensures ok <==> HostnameOk(host)
  {
    hide Labels;
    var labels := Labels(host);
    var nonNumeric := false;
    for i := 0 to |labels|
      invariant forall k :: 0 <= k < i ==> LabelOk(labels[k])
      invariant nonNumeric <==> exists k :: 0 <= k < i && !Numeric(labels[k])
    {
      var part := labels[i];
      if part == "" || |part| > 63 {
        assert !LabelOk(labels[i]);
        return false;
      }
      ghost var before := nonNumeric;
      for j := 0 to |part|
        invariant forall k :: 0 <= k < j ==> LabelByte(part[k])
        invariant nonNumeric <==> before || exists k :: 0 <= k < j && !IsDigit(part[k])
      {
        var c := part[j];
        if '0' <= c <= '9' {
        } else if 'a' <= c <= 'z' || c == '-' || c == '_' {
          nonNumeric := true;
        } else {
          assert !LabelByte(part[j]);
          assert !LabelOk(labels[i]);
          return false;
        }
      }
      assert !Numeric(labels[i]) <==> exists k :: 0 <= k < |part| && !IsDigit(part[k]);
    }
    return nonNumeric;
  }

  // ---------- the canonical form ----------

  function CanonicalBracketed(ipText: string -> Option<string>, s: string): string
    requires HasPrefix(s, "[")
  {
    var end := IndexOf(s, ']');
    if end < 0 then ""
    else
      var rest := s[end + 1..];
      if rest != "" && (rest[0] != ':' || !PortOk(rest[1..])) then ""
      else
        var inner := s[1..end];
        if ipText(inner).None? || ':' !in inner then "" else ipText(inner).value
  }

  function CanonicalHost(ipText: string -> Option<string>, hostport: string): string {
    if ipText(hostport).Some? then ipText(hostport).value
    else if HasPrefix(hostport, "[") then CanonicalBracketed(ipText, hostport)
    else
      var colon := CutAt(hostport, ':');
      if colon.found && !PortOk(colon.after) then ""
      else
        var host := CutSuffix(Lower(colon.before), ".");
        if ipText(host).Some? then ipText(host).value
        else if !HostnameOk(host) then ""
        else host
  }

  // ---------- names ----------

  // A good name is part bytes and dots, starts and ends with a part byte, is its own lower case,
  // and holds a byte that is neither digit nor dot.
  lemma {:induction false} LabelsBytes(host: string)
    requires forall i :: 0 <= i < |Labels(host)| ==> LabelOk(Labels(host)[i])
    ensures host != "" && host[0] != '.' && host[|host| - 1] != '.'
    ensures All(host, c => LabelByte(c) || c == '.')
    ensures All(host, c => IsDigit(c) || c == '.') ==> forall i :: 0 <= i < |Labels(host)| ==> Numeric(Labels(host)[i])
    decreases |host|
  {
    hide CutAt;
    var cut := CutAt(host, '.');
    CutJoins(host, '.');
    NoDotBefore(host);
    assert LabelOk(Labels(host)[0]);
    if cut.found {
      var ls := Labels(cut.after);
      assert Labels(host) == [cut.before] + ls;
      forall i | 0 <= i < |ls| ensures LabelOk(ls[i]) { assert LabelOk(Labels(host)[i + 1]); }
      LabelsBytes(cut.after);
      JoinedBytes(host, cut.before, cut.after);
    }
  }

  lemma NoDotBefore(host: string)
    ensures '.' !in CutAt(host, '.').before
    ensures CutAt(host, '.').found ==> |CutAt(host, '.').after| < |host|
  {}

  lemma JoinedBytes(host: string, a: string, b: string)
    requires host == a + "." + b && All(a, LabelByte) && a != "" && b != ""
    requires All(b, c => LabelByte(c) || c == '.')
    ensures All(host, c => LabelByte(c) || c == '.')
    ensures host[0] == a[0] && host[|host| - 1] == b[|b| - 1]
    ensures All(host, c => IsDigit(c) || c == '.') ==>
              All(b, c => IsDigit(c) || c == '.') && (('.' !in a) ==> All(a, IsDigit))
  {
    assert forall k :: 0 <= k < |b| ==> host[|a| + 1 + k] == b[k];
    assert forall k :: 0 <= k < |a| ==> host[k] == a[k];
  }

  lemma NameShape(k: string)
    requires HostnameOk(k)
    ensures k != "" && k[0] != '.' && k[|k| - 1] != '.' && k[0] != '['
    ensures Lower(k) == k && ':' !in k
    ensures !All(k, c => IsDigit(c) || c == '.')
  {
    hide Labels;
    LabelsBytes(k);
    LowerIsProjection(k);
    forall i | 0 <= i < |k| ensures !('A' <= k[i] <= 'Z') && k[i] != ':' && k[i] != '[' {
      assert LabelByte(k[i]) || k[i] == '.';
    }
  }

  lemma NoName()
    ensures !HostnameOk("")
  {
    assert Labels("") == [""];
    assert !LabelOk(Labels("")[0]);
  }

  // ---------- idempotence ----------

  lemma NameIsCanonical(ipText: string -> Option<string>, k: string)
    requires HostnameOk(k) && ipText(k).None?
    ensures CanonicalHost(ipText, k) == k
  {
    hide HostnameOk, Lower;
    NameShape(k);
    assert CutAt(k, ':') == Cut(k, "", false);
  }

  lemma NothingIsCanonical(ipText: string -> Option<string>)
    requires Lawful(ipText)
    ensures CanonicalHost(ipText, "") == ""
  {
    NoName();
    assert Lower("") == "";
  }

  // What the canonical form can be: nothing, an address in printed form, or a good name.
  lemma CanonicalKinds(ipText: string -> Option<string>, s: string)
    requires Lawful(ipText)
    ensures var k := CanonicalHost(ipText, s);
            k == "" || ipText(k) == Some(k) || (HostnameOk(k) && ipText(k).None?)
  {
    hide HostnameOk, PortOk, Lower;
  }

  // Canonicalizing twice is canonicalizing once.
  lemma CanonicalIsIdempotent(ipText: string -> Option<string>, s: string)
    requires Lawful(ipText)
    ensures CanonicalHost(ipText, CanonicalHost(ipText, s)) == CanonicalHost(ipText, s)
  {
    hide HostnameOk, PortOk, Lower, CanonicalBracketed, CutSuffix, CutAt;
    var k := CanonicalHost(ipText, s);
    CanonicalKinds(ipText, s);
    if k == "" {
      NothingIsCanonical(ipText);
    } else if ipText(k) != Some(k) {
      NameIsCanonical(ipText, k);
    }
  }

  // ---------- the preimage of a name ----------

  predicate PortPart(port: string) { port == "" || (port[0] == ':' && PortOk(port[1..])) }

  // An ASCII-case variant of k, then at most one dot, then at most one port.
  ghost predicate Spells(s: string, k: string) {
    exists name, dot, port :: s == name + dot + port && Lower(name) == k && (dot == "" || dot == ".") && PortPart(port)
  }

  lemma NoColonName(name: string, k: string)
    requires Lower(name) == k && HostnameOk(k)
    ensures name != "" && ':' !in name && name[0] != '[' && |name| == |k|
    ensures All(name, c => IsDigit(c) || c == '.') ==> name == k
  {
    hide HostnameOk;
    NameShape(k);
    assert |Lower(name)| == |name|;
    forall i | 0 <= i < |name| ensures name[i] != ':' && (name[i] == '[' ==> k[i] == '[') {
      assert Lower(name)[i] == LowerASCII(name[i]);
    }
    if All(name, c => IsDigit(c) || c == '.') {
      forall i | 0 <= i < |name| ensures name[i] == k[i] {
        assert Lower(name)[i] == LowerASCII(name[i]);
        assert IsDigit(name[i]) || name[i] == '.';
      }
    }
  }

  // No spelling of a name is an address literal: with a port it has one ':', without one it is not
  // all digits and dots.
  lemma SpellingIsNoAddress(ipText: string -> Option<string>, head: string, port: string)
    requires Lawful(ipText) && ':' !in head && PortPart(port)
    requires !All(head, c => IsDigit(c) || c == '.')
    ensures ipText(head + port).None?
  {
    var s := head + port;
    if port == "" {
      assert s == head;
    } else {
      assert s[|head|] == ':' && s[..|head|] == head;
      IndexOfAt(s, ':', |head|);
      assert s[|head| + 1..] == port[1..];
      assert forall i :: 0 <= i < |port[1..]| ==> IsDigit(port[1..][i]);
      assert ':' !in port[1..];
      assert ':' in s;
    }
  }

  lemma SpellingCuts(head: string, port: string)
    requires ':' !in head && PortPart(port)
    ensures CutAt(head + port, ':') == if port == "" then Cut(head, "", false) else Cut(head, port[1..], true)
  {
    var s := head + port;
    if port == "" {
      assert s == head;
    } else {
      assert s[|head|] == ':' && s[..|head|] == head;
      IndexOfAt(s, ':', |head|);
      assert s[|head| + 1..] == port[1..];
    }
  }

  lemma SpellingIsCanonical(ipText: string -> Option<string>, name: string, dot: string, port: string, k: string)
    requires Lawful(ipText) && HostnameOk(k) && ipText(k).None?
    requires Lower(name) == k && (dot == "" || dot == ".") && PortPart(port)
    ensures CanonicalHost(ipText, name + dot + port) == k
  {
    hide HostnameOk, Lower, PortOk, CutAt, CanonicalBracketed;
    NameShape(k);
    NoColonName(name, k);
    var head := name + dot;
    assert ':' !in head;
    HeadNotNumeric(name, dot, k);
    SpellingIsNoAddress(ipText, head, port);
    SpellingCuts(head, port);
    LowerDot(name, dot);
    assert (head + port)[0] == name[0];
  }

  lemma HeadNotNumeric(name: string, dot: string, k: string)
    requires Lower(name) == k && HostnameOk(k)
    ensures !All(name + dot, c => IsDigit(c) || c == '.')
  {
    hide HostnameOk;
    NameShape(k);
    NoColonName(name, k);
    if All(name + dot, c => IsDigit(c) || c == '.') {
      forall i | 0 <= i < |name| ensures IsDigit(name[i]) || name[i] == '.' { assert (name + dot)[i] == name[i]; }
    }
  }

  lemma LowerDot(name: string, dot: string)
    requires dot == "" || dot == "."
    ensures Lower(name + dot) == Lower(name) + dot
    ensures Lower(name) != "" && Lower(name)[|Lower(name)| - 1] != '.' ==>
              CutSuffix(Lower(name + dot), ".") == Lower(name)
  {
    LowerAppend(name, dot);
    assert Lower(dot) == dot;
    var l := Lower(name);
    if dot == "." {
      assert (l + ".")[|l|..] == "." && (l + ".")[..|l|] == l;
    } else {
      assert l + "" == l;
    }
  }

  // The Host values that canonicalize to a name are exactly its spellings: letters in any case, at
  // most one trailing dot, at most one port up to 65535. Nothing else collapses onto it.
  lemma NamePreimage(ipText: string -> Option<string>, s: string, k: string)
    requires Lawful(ipText) && HostnameOk(k) && ipText(k).None?
    ensures CanonicalHost(ipText, s) == k <==> Spells(s, k)
  {
    hide HostnameOk, Lower, PortOk;
    if Spells(s, k) {
      var name, dot, port :| s == name + dot + port && Lower(name) == k && (dot == "" || dot == ".") && PortPart(port);
      SpellingIsCanonical(ipText, name, dot, port, k);
    }
    if CanonicalHost(ipText, s) == k {
      NameShape(k);
      CanonicalSpells(ipText, s, k);
    }
  }

  lemma CanonicalSpells(ipText: string -> Option<string>, s: string, k: string)
    requires Lawful(ipText) && ipText(k).None? && k != "" && CanonicalHost(ipText, s) == k
    ensures Spells(s, k)
  {
    hide *;
    var colon := CutAt(s, ':');
    CanonicalParts(ipText, s, k);
    CutJoins(s, ':');
    var name, dot := TrimmedName(colon.before, k);
    SpellsBy(colon, name, dot, k);
  }

  lemma SpellsBy(colon: Cut, name: string, dot: string, k: string)
    requires colon.before == name + dot && Lower(name) == k && (dot == "" || dot == ".")
    requires colon.found ==> PortOk(colon.after)
    ensures Spells(if colon.found then colon.before + [':'] + colon.after else colon.before, k)
  {
    hide Lower, PortOk;
    var port := if colon.found then ":" + colon.after else "";
    assert PortPart(port) by { if colon.found { assert port[1..] == colon.after; } }
    assert colon.found ==> colon.before + [':'] + colon.after == name + dot + port;
    assert !colon.found ==> colon.before == name + dot + port;
  }

  // A name comes out of the last branch only.
  lemma CanonicalParts(ipText: string -> Option<string>, s: string, k: string)
    requires Lawful(ipText) && ipText(k).None? && k != "" && CanonicalHost(ipText, s) == k
    ensures var colon := CutAt(s, ':');
            CutSuffix(Lower(colon.before), ".") == k && (colon.found ==> PortOk(colon.after))
  {
    hide HostnameOk, Lower, PortOk, CutAt, CutSuffix;
  }

  lemma TrimmedName(head: string, k: string) returns (name: string, dot: string)
    requires k != "" && CutSuffix(Lower(head), ".") == k
    ensures head == name + dot && Lower(name) == k && (dot == "" || dot == ".")
  {
    hide Lower;
    if Lower(head) == k {
      name, dot := head, "";
    } else {
      LowerLast(head);
      name, dot := head[..|head| - 1], ".";
    }
  }

  lemma LowerLast(head: string)
    ensures |Lower(head)| == |head|
    ensures head != "" && Lower(head)[|head| - 1..] == "." ==>
              head[|head| - 1] == '.' && head == head[..|head| - 1] + "."
    ensures head != "" ==> Lower(head)[..|head| - 1] == Lower(head[..|head| - 1])
  {
    if head != "" {
      assert Lower(head)[|head| - 1..][0] == LowerASCII(head[|head| - 1]);
    }
  }

  // ---------- the preimage of an address ----------

  // A literal of t as it is; a bracketed IPv6 literal with at most one port; a literal without ':'
  // with at most one dot and at most one port.
  ghost predicate SpellsAddress(ipText: string -> Option<string>, s: string, t: string) {
    || ipText(s) == Some(t)
    || (exists inner, port :: s == "[" + inner + "]" + port && ':' in inner && ipText(inner) == Some(t)
                              && PortPart(port))
    || (exists lit, dot, port :: s == lit + dot + port && ':' !in lit && ipText(lit) == Some(t)
                                 && (dot == "" || dot == ".") && PortPart(port))
  }

  lemma BracketCut(inner: string, port: string)
    requires ']' !in inner
    ensures var s := "[" + inner + "]" + port;
            && HasPrefix(s, "[") && IndexOf(s, ']') == |inner| + 1 && |inner| + 2 <= |s|
            && s[|inner| + 2..] == port && s[1..|inner| + 1] == inner
  {
    var s := "[" + inner + "]" + port;
    assert s[..|inner| + 1] == "[" + inner;
    IndexOfAt(s, ']', |inner| + 1);
  }

  lemma BracketedSpelling(ipText: string -> Option<string>, inner: string, port: string, t: string)
    requires Lawful(ipText) && PortPart(port) && ':' in inner && ipText(inner) == Some(t)
    ensures CanonicalHost(ipText, "[" + inner + "]" + port) == t
  {
    hide PortOk, Lower, HostnameOk, IndexOf, CutAt, CutSuffix, CanonicalBracketed, PortPart;
    var s := "[" + inner + "]" + port;
    BracketCut(inner, port);
    BracketedValue(ipText, s, inner, port, t);
    assert s[0] == '[';
  }

  lemma BracketedValue(ipText: string -> Option<string>, s: string, inner: string, port: string, t: string)
    requires HasPrefix(s, "[") && IndexOf(s, ']') == |inner| + 1 && |inner| + 2 <= |s|
    requires s[|inner| + 2..] == port && s[1..|inner| + 1] == inner
    requires PortPart(port) && ':' in inner && ipText(inner) == Some(t)
    ensures CanonicalBracketed(ipText, s) == t
  {
    hide PortOk, IndexOf;
  }

  lemma DottedSpelling(ipText: string -> Option<string>, lit: string, dot: string, port: string, t: string)
    requires Lawful(ipText) && ':' !in lit && ipText(lit) == Some(t) && (dot == "" || dot == ".") && PortPart(port)
    ensures CanonicalHost(ipText, lit + dot + port) == t
  {
    hide PortOk, HostnameOk, CutAt, CanonicalBracketed, Lower;
    var head, s := lit + dot, lit + dot + port;
    LiteralLower(ipText, lit);
    LowerDot(lit, dot);
    SpellingCuts(head, port);
    assert s[0] == lit[0];
    if dot == "" && port == "" {
      assert s == lit;
    } else if port != "" {
      OneColon(ipText, head, port);
    } else {
      assert s[|s| - 1] == '.';
    }
  }

  lemma LiteralLower(ipText: string -> Option<string>, lit: string)
    requires Lawful(ipText) && ':' !in lit && ipText(lit).Some?
    ensures Lower(lit) == lit && lit != "" && lit[|lit| - 1] != '.'
  {
    assert forall i :: 0 <= i < |lit| ==> IsDigit(lit[i]) || lit[i] == '.';
    LowerIsProjection(lit);
  }

  lemma OneColon(ipText: string -> Option<string>, head: string, port: string)
    requires Lawful(ipText) && ':' !in head && PortPart(port) && port != ""
    ensures ipText(head + port).None?
  {
    var s := head + port;
    assert s[|head|] == ':' && s[..|head|] == head;
    IndexOfAt(s, ':', |head|);
    assert s[|head| + 1..] == port[1..];
    assert forall i :: 0 <= i < |port[1..]| ==> IsDigit(port[1..][i]);
    assert ':' !in port[1..];
    assert ':' in s;
  }

  lemma BracketedParts(ipText: string -> Option<string>, s: string, t: string)
    requires HasPrefix(s, "[") && CanonicalBracketed(ipText, s) == t && t != ""
    ensures SpellsAddress(ipText, s, t)
  {
    hide PortOk;
    var end := IndexOf(s, ']');
    var inner, port := s[1..end], s[end + 1..];
    assert s == "[" + inner + "]" + port;
    assert PortPart(port);
  }

  lemma DottedParts(ipText: string -> Option<string>, s: string, t: string)
    requires Lawful(ipText)
    requires var colon := CutAt(s, ':');
             (colon.found ==> PortOk(colon.after)) && ipText(CutSuffix(Lower(colon.before), ".")) == Some(t)
    ensures SpellsAddress(ipText, s, t)
  {
    hide *;
    var colon := CutAt(s, ':');
    CutJoins(s, ':');
    NoColonBefore(s);
    var lit := CutSuffix(Lower(colon.before), ".");
    NotEmptyLiteral(ipText, lit);
    var name, dot := TrimmedName(colon.before, lit);
    NoColonIn(colon.before, name, dot);
    LowerKeepsColons(name);
    SameDigits(ipText, name, lit);
    DottedBy(ipText, colon, lit, dot, t);
  }

  lemma NotEmptyLiteral(ipText: string -> Option<string>, lit: string)
    requires Lawful(ipText) && ipText(lit).Some?
    ensures lit != ""
  {}

  lemma NoColonIn(head: string, name: string, dot: string)
    requires head == name + dot && ':' !in head
    ensures ':' !in name
  {
    assert forall i :: 0 <= i < |name| ==> head[i] == name[i];
  }

  lemma DottedBy(ipText: string -> Option<string>, colon: Cut, lit: string, dot: string, t: string)
    requires colon.before == lit + dot && ':' !in lit && ipText(lit) == Some(t) && (dot == "" || dot == ".")
    requires colon.found ==> PortOk(colon.after)
    ensures SpellsAddress(ipText, if colon.found then colon.before + [':'] + colon.after else colon.before, t)
  {
    hide PortOk;
    var port := if colon.found then ":" + colon.after else "";
    assert PortPart(port) by { if colon.found { assert port[1..] == colon.after; } }
    assert colon.found ==> colon.before + [':'] + colon.after == lit + dot + port;
    assert !colon.found ==> colon.before == lit + dot + port;
  }

  lemma NoColonBefore(s: string)
    ensures ':' !in CutAt(s, ':').before
  {}

  lemma LowerKeepsColons(name: string)
    ensures ':' in Lower(name) ==> ':' in name
  {
    if ':' in Lower(name) {
      var i :| 0 <= i < |Lower(name)| && Lower(name)[i] == ':';
      assert Lower(name)[i] == LowerASCII(name[i]);
    }
  }

  // Only digits and dots fold to digits and dots.
  lemma SameDigits(ipText: string -> Option<string>, name: string, lit: string)
    requires Lawful(ipText) && Lower(name) == lit && ':' !in lit && ipText(lit).Some?
    ensures name == lit
  {
    assert |Lower(name)| == |name|;
    forall i | 0 <= i < |name| ensures name[i] == lit[i] {
      assert Lower(name)[i] == LowerASCII(name[i]);
      assert IsDigit(lit[i]) || lit[i] == '.';
    }
  }

  // The Host values that canonicalize to an address in printed form are exactly its spellings. With
  // NamePreimage and CanonicalKinds, every other value canonicalizes to nothing.
  lemma AddressPreimage(ipText: string -> Option<string>, s: string, t: string)
    requires Lawful(ipText) && ipText(t) == Some(t)
    ensures CanonicalHost(ipText, s) == t <==> SpellsAddress(ipText, s, t)
  {
    hide HostnameOk, PortOk, Lower, CutAt, CutSuffix, CanonicalBracketed, IndexOf;
    if CanonicalHost(ipText, s) == t {
      if ipText(s).None? {
        if HasPrefix(s, "[") { BracketedParts(ipText, s, t); } else { DottedParts(ipText, s, t); }
      }
    } else {
      forall inner, port | s == "[" + inner + "]" + port && PortPart(port) && ':' in inner
        ensures ipText(inner) != Some(t)
      {
        if ipText(inner) == Some(t) { BracketedSpelling(ipText, inner, port, t); }
      }
      forall lit, dot, port | s == lit + dot + port && ':' !in lit && (dot == "" || dot == ".") && PortPart(port)
        ensures ipText(lit) != Some(t)
      {
        if ipText(lit) == Some(t) { DottedSpelling(ipText, lit, dot, port, t); }
      }
    }
  }

  // ---------- the allowlist ----------

  datatype HostPolicy = HostPolicy(allowed: set<string>, active: bool, loopbackExempt: bool)

  // The non-blank entries, trimmed, in order; strings.TrimSpace is a parameter.
  function Entries(entries: seq<string>, trim: string -> string): seq<string> {
    if entries == [] then []
    else
      var s := trim(entries[|entries| - 1]);
      Entries(entries[..|entries| - 1], trim) + if s == "" then [] else [s]
  }

  function Refused(ipText: string -> Option<string>, es: seq<string>): seq<string> {
    if es == [] then []
    else
      var s := es[|es| - 1];
      Refused(ipText, es[..|es| - 1]) + if CanonicalHost(ipText, s) == "" then [s] else []
  }

  function Keys(ipText: string -> Option<string>, es: seq<string>): set<string> {
    set e | e in es && CanonicalHost(ipText, e) != "" :: CanonicalHost(ipText, e)
  }

  lemma EntriesStep(entries: seq<string>, i: nat, trim: string -> string)
    requires i < |entries|
    ensures Entries(entries[..i + 1], trim) ==
            if trim(entries[i]) == "" then Entries(entries[..i], trim)
            else Entries(entries[..i], trim) + [trim(entries[i])]
  {
    assert entries[..i + 1][..i] == entries[..i];
    assert Entries(entries[..i], trim) + [] == Entries(entries[..i], trim);
  }

  lemma KeysStep(ipText: string -> Option<string>, es: seq<string>, s: string)
    ensures Keys(ipText, es + [s]) ==
            if CanonicalHost(ipText, s) == "" then Keys(ipText, es) else Keys(ipText, es) + {CanonicalHost(ipText, s)}
    ensures Refused(ipText, es + [s]) ==
            if CanonicalHost(ipText, s) == "" then Refused(ipText, es) + [s] else Refused(ipText, es)
  {
    hide CanonicalHost;
    assert (es + [s])[..|es|] == es;
    assert forall e :: e in es + [s] <==> e in es || e == s;
    assert Refused(ipText, es) + [] == Refused(ipText, es);
  }

  // ParseHostList
  method ParseHostList(ipText: string -> Option<string>, trim: string -> string, entries: seq<string>,
                       loopbackExempt: bool)
    returns (policy: HostPolicy, invalid: seq<string>)
    ensures var es := Entries(entries, trim);
            policy == HostPolicy(Keys(ipText, es), es != [], loopbackExempt) && invalid == Refused(ipText, es)
  {
    policy, invalid := HostPolicy({}, false, loopbackExempt), [];
    ghost var es: seq<string> := [];
    assert Keys(ipText, []) == {} && Refused(ipText, []) == [] && Entries(entries[..0], trim) == [];
    hide CanonicalHost, Entries, Keys, Refused;
    for i := 0 to |entries|
      invariant es == Entries(entries[..i], trim)
      invariant policy == HostPolicy(Keys(ipText, es), es != [], loopbackExempt) && invalid == Refused(ipText, es)
    {
      EntriesStep(entries, i, trim);
      var s := trim(entries[i]);
      if s == "" {
        continue;
      }
      KeysStep(ipText, es, s);
      es := es + [s];
      policy := policy.(active := true);
      var key := CanonicalHost(ipText, s);
      if key == "" {
        invalid := invalid + [s];
        continue;
      }
      policy := policy.(allowed := policy.allowed + {key});
    }
    assert entries[..|entries|] == entries;
  }

  // isLoopbackHost and isLoopbackPeer; isLoopback answers for an address literal's text.
  predicate LoopbackHost(isLoopback: string -> bool, canon: string) { canon == "localhost" || isLoopback(canon) }

  predicate Allows(ipText: string -> Option<string>, isLoopback: string -> bool, p: HostPolicy, host: string,
                   loopbackPeer: bool) {
    || !p.active
    || CanonicalHost(ipText, host) in p.allowed
    || (p.loopbackExempt && LoopbackHost(isLoopback, CanonicalHost(ipText, host)) && loopbackPeer)
  }

  predicate LoopbackRequest(ipText: string -> Option<string>, isLoopback: string -> bool, host: string,
                            loopbackPeer: bool) {
    loopbackPeer && LoopbackHost(isLoopback, CanonicalHost(ipText, host))
  }

  // A policy from a list admits everything only when no entry is non-blank. Otherwise it admits a
  // Host exactly when some entry has the same non-empty canonical form, or the exemption holds; so a
  // malformed Host, and any Host when every entry is malformed, is refused.
  lemma AllowsMeaning(ipText: string -> Option<string>, isLoopback: string -> bool, trim: string -> string,
                      entries: seq<string>, exempt: bool, host: string, loopbackPeer: bool)
    requires Lawful(ipText) && !isLoopback("")
    ensures var es := Entries(entries, trim); var p := HostPolicy(Keys(ipText, es), es != [], exempt);
            var k := CanonicalHost(ipText, host);
            && (es == [] ==> Allows(ipText, isLoopback, p, host, loopbackPeer))
            && (es != [] ==>
                 (Allows(ipText, isLoopback, p, host, loopbackPeer) <==>
                   k != "" && ((exists e :: e in es && CanonicalHost(ipText, e) == k)
                               || (exempt && LoopbackRequest(ipText, isLoopback, host, loopbackPeer)))))
  {
    hide CanonicalHost, Entries;
  }

  // The Host values that have canonical form k, an address in printed form or a name.
  ghost predicate SpellingOf(ipText: string -> Option<string>, host: string, k: string) {
    if ipText(k) == Some(k) then SpellsAddress(ipText, host, k) else Spells(host, k)
  }

  // Any parsed list admits exactly the spellings of what it lists, and what the exemption lets in.
  lemma ListAdmitsSpellings(ipText: string -> Option<string>, isLoopback: string -> bool, trim: string -> string,
                            entries: seq<string>, exempt: bool, host: string, loopbackPeer: bool)
    requires Lawful(ipText) && !isLoopback("")
    ensures var es := Entries(entries, trim); var p := HostPolicy(Keys(ipText, es), es != [], exempt);
            Allows(ipText, isLoopback, p, host, loopbackPeer) <==>
              || es == []
              || (exists e :: e in es && CanonicalHost(ipText, e) != ""
                   && SpellingOf(ipText, host, CanonicalHost(ipText, e)))
              || (exempt && LoopbackRequest(ipText, isLoopback, host, loopbackPeer))
  {
    hide CanonicalHost, Entries, SpellingOf, Allows, LoopbackRequest, Keys, LoopbackHost;
    AllowsMeaning(ipText, isLoopback, trim, entries, exempt, host, loopbackPeer);
    NoLoopback(ipText, isLoopback, host, loopbackPeer);
    var es := Entries(entries, trim);
    forall e | e in es && CanonicalHost(ipText, e) != ""
      ensures CanonicalHost(ipText, host) == CanonicalHost(ipText, e) <==>
              SpellingOf(ipText, host, CanonicalHost(ipText, e))
    {
      SpellingsOfEntry(ipText, e, host);
    }
  }

  // A malformed Host is no loopback host.
  lemma NoLoopback(ipText: string -> Option<string>, isLoopback: string -> bool, host: string, loopbackPeer: bool)
    requires !isLoopback("")
    ensures LoopbackRequest(ipText, isLoopback, host, loopbackPeer) ==> CanonicalHost(ipText, host) != ""
  {
    hide CanonicalHost;
  }

  lemma SpellingsOfEntry(ipText: string -> Option<string>, e: string, host: string)
    requires Lawful(ipText) && CanonicalHost(ipText, e) != ""
    ensures CanonicalHost(ipText, host) == CanonicalHost(ipText, e) <==>
            SpellingOf(ipText, host, CanonicalHost(ipText, e))
  {
    hide CanonicalHost, Lawful, HostnameOk, Spells, SpellsAddress;
    var k := CanonicalHost(ipText, e);
    CanonicalKinds(ipText, e);
    if ipText(k) == Some(k) { AddressPreimage(ipText, host, k); } else { NamePreimage(ipText, host, k); }
  }
}
