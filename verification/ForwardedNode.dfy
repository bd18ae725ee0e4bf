/**
 clientip.go: section 6 nodes of RFC 7239, the parser
 and the grammar it accepts.
 */
module ForwardedNode {
  import opened Text
  import opened AsciiFold
  import opened NetAddr

  // ---------- nodes ----------

  predicate ObfuscatedByte(c: char) {
    'A' <= c <= 'Z' || 'a' <= c <= 'z' || IsDigit(c) || c == '.' || c == '_' || c == '-'
  }

  predicate Obfuscated(s: string) {
    |s| > 1 && s[0] == '_' && All(s[1..], ObfuscatedByte)
  }

  predicate ValidNodePort(port: string) {
    Obfuscated(port) || (port != "" && |port| <= 5 && All(port, IsDigit))
  }

  // The address a node names: Zero for "unknown" and obfuscated names, None for no node at all.
  function ParseNode(parse: string -> Option<Addr>, node: string): Option<Addr> {
    if HasPrefix(node, "[") then
      var close := CutAt(node[1..], ']');
      if !close.found then None
      else
        var (port, hasPort) := CutPrefix(close.after, ":");
        if !hasPort && close.after != "" then None
        else if hasPort && !ValidNodePort(port) then None
        else NodeAddress(parse(close.before), true)
    else
      var colon := CutAt(node, ':');
      if colon.found && !ValidNodePort(colon.after) then None
      else if EqualFold(colon.before, "unknown") || Obfuscated(colon.before) then Some(Zero)
      else NodeAddress(parse(colon.before), false)
  }

  function NodeAddress(ip: Option<Addr>, bracketed: bool): Option<Addr> {
    if ip.None? || ip.value.V6? != bracketed || Zone(ip.value) != "" then None else Some(Unmap(ip.value))
  }

  // section 6 of RFC 7239: node = nodename [ ":" node-port ]
  ghost predicate NodeDenotes(parse: string -> Option<Addr>, node: string, a: Addr) {
    exists name, port :: node == name + port && PortPart(port) && NameDenotes(parse, name, a)
  }

  predicate PortPart(port: string) {
    port == "" || (port[0] == ':' && ValidNodePort(port[1..]))
  }

  // nodename = IPv4address / "[" IPv6address "]" / "unknown" / obfnode
  ghost predicate NameDenotes(parse: string -> Option<Addr>, name: string, a: Addr) {
    || ((EqualFold(name, "unknown") || Obfuscated(name)) && a == Zero)
    || (parse(name).Some? && parse(name).value.V4? && a == parse(name).value)
    || exists inner :: Bracketed(inner) == name && parse(inner).Some? && parse(inner).value.V6?
                       && parse(inner).value.zone == "" && a == Unmap(parse(inner).value)
  }

  function Bracketed(inner: string): string { "[" + inner + "]" }

  lemma NodeSound(parse: string -> Option<Addr>, node: string, a: Addr)
    requires Lawful(parse) && ParseNode(parse, node) == Some(a)
    ensures NodeDenotes(parse, node, a)
  {
    hide EqualFold, CutAt, Obfuscated, ValidNodePort, NodeDenotes, NodeAddress, Bracketed;
    if HasPrefix(node, "[") {
      var close := CutAt(node[1..], ']');
      CutJoins(node[1..], ']');
      assert node == "[" + node[1..];
      BracketedNode(parse, close.before, close.after, a);
    } else {
      var colon := CutAt(node, ':');
      CutJoins(node, ':');
      PlainNode(parse, colon, a);
    }
  }

  lemma PlainNode(parse: string -> Option<Addr>, colon: Cut, a: Addr)
    requires Lawful(parse)
    requires colon.found ==> ValidNodePort(colon.after)
    requires if EqualFold(colon.before, "unknown") || Obfuscated(colon.before) then a == Zero
             else NodeAddress(parse(colon.before), false) == Some(a)
    ensures NodeDenotes(parse, if colon.found then colon.before + ":" + colon.after else colon.before, a)
  {
    hide EqualFold, Obfuscated, ValidNodePort;
    var port := if colon.found then ":" + colon.after else "";
    assert PortPart(port) by { if colon.found { assert port[1..] == colon.after; } }
    assert NameDenotes(parse, colon.before, a);
    assert colon.found ==> colon.before + ":" + colon.after == colon.before + port;
    assert !colon.found ==> colon.before == colon.before + port;
  }

  lemma BracketedNode(parse: string -> Option<Addr>, inner: string, after: string, a: Addr)
    requires PortPart(after) && NodeAddress(parse(inner), true) == Some(a)
    ensures NodeDenotes(parse, "[" + (inner + "]" + after), a)
  {
    assert NameDenotes(parse, Bracketed(inner), a);
    assert "[" + (inner + "]" + after) == Bracketed(inner) + after;
  }

  lemma UnknownHasNoColon(name: string)
    requires EqualFold(name, "unknown")
    ensures name != "" && ':' !in name && name[0] != '['
  {
    forall i | 0 <= i < |name| ensures name[i] != ':' && (i == 0 ==> name[i] != '[') {
      assert Lower(name)[i] == Lower("unknown")[i];
      assert LowerASCII(name[i]) == LowerASCII("unknown"[i]);
    }
    assert |Lower(name)| == 7;
  }

  lemma CutAtColon(name: string, port: string)
    requires ':' !in name && PortPart(port)
    ensures CutAt(name + port, ':') == if port == "" then Cut(name, "", false) else Cut(name, port[1..], true)
  {
    var node := name + port;
    if port != "" {
      assert node[..|name|] == name;
      IndexOfAt(node, ':', |name|);
      assert node[|name| + 1..] == port[1..];
    } else {
      assert node == name;
    }
  }

  lemma NodeCompletePlain(parse: string -> Option<Addr>, name: string, port: string)
    requires name != "" ==> name[0] != '['
    requires ':' !in name && PortPart(port)
    ensures ParseNode(parse, name + port) ==
            if EqualFold(name, "unknown") || Obfuscated(name) then Some(Zero) else NodeAddress(parse(name), false)
  {
    hide EqualFold;
    CutAtColon(name, port);
    var node := name + port;
    if node != "" { assert node[0] == if name == "" then port[0] else name[0]; }
  }

  lemma NodeCompleteBracketed(parse: string -> Option<Addr>, inner: string, port: string)
    requires ']' !in inner && PortPart(port)
    ensures ParseNode(parse, Bracketed(inner) + port) == NodeAddress(parse(inner), true)
  {
    var node := Bracketed(inner) + port;
    assert node[1..] == inner + "]" + port;
    assert node[1..][..|inner|] == inner;
    IndexOfAt(node[1..], ']', |inner|);
    assert node[1..][|inner| + 1..] == port;
    assert HasPrefix(node, "[") by { assert node == "[" + node[1..]; }
    if port != "" {
      assert port == ":" + port[1..];
    }
  }

  // An IPv4 literal holds neither a ':' nor a '[', and is no name.
  lemma LiteralShape(parse: string -> Option<Addr>, name: string)
    requires Lawful(parse) && parse(name).Some? && parse(name).value.V4?
    ensures ':' !in name && (name != "" ==> name[0] != '[')
    ensures !EqualFold(name, "unknown") && !Obfuscated(name)
  {
    assert forall i :: 0 <= i < |name| ==> IsDigit(name[i]) || name[i] == '.';
    if name != "" { assert Lower(name)[0] == name[0] && Lower("unknown")[0] == 'u'; }
  }

  lemma NodeComplete(parse: string -> Option<Addr>, node: string, a: Addr)
    requires Lawful(parse) && NodeDenotes(parse, node, a)
    ensures ParseNode(parse, node) == Some(a)
  {
    hide ParseNode, EqualFold, CutAt;
    var name, port :| node == name + port && PortPart(port) && NameDenotes(parse, name, a);
    if EqualFold(name, "unknown") || Obfuscated(name) {
      if EqualFold(name, "unknown") { UnknownHasNoColon(name); }
      else { assert name == [name[0]] + name[1..]; }
      NodeCompletePlain(parse, name, port);
      if parse(name).Some? && parse(name).value.V4? { LiteralShape(parse, name); }
    } else if parse(name).Some? && parse(name).value.V4? && a == parse(name).value {
      LiteralShape(parse, name);
      NodeCompletePlain(parse, name, port);
    } else {
      var inner :| Bracketed(inner) == name && parse(inner).Some? && parse(inner).value.V6?
                   && parse(inner).value.zone == "" && a == Unmap(parse(inner).value);
      NodeCompleteBracketed(parse, inner, port);
    }
  }

  // A node parses to an address exactly when it derives from the grammar with that address.
  lemma NodeIffGrammar(parse: string -> Option<Addr>, node: string, a: Addr)
    requires Lawful(parse)
    ensures ParseNode(parse, node) == Some(a) <==> NodeDenotes(parse, node, a)
  {
    hide ParseNode, NodeDenotes, Lawful;
    if ParseNode(parse, node) == Some(a) { NodeSound(parse, node, a); }
    if NodeDenotes(parse, node, a) { NodeComplete(parse, node, a); }
  }
}
