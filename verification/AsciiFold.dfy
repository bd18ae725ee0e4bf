/** asciifold.go: ASCII-only case folding. */
module AsciiFold {
  function LowerASCII(c: char): char {
    if 'A' <= c <= 'Z' then (c as int + ('a' as int - 'A' as int)) as char else c
  }

  function Lower(s: string): (r: string)
    ensures |r| == |s|
  {
    seq(|s|, i requires 0 <= i < |s| => LowerASCII(s[i]))
  }

  predicate EqualFold(s: string, t: string) { Lower(s) == Lower(t) }

  // Folding is a projection onto strings without upper-case letters, and it is the coarsest
  // relation the loops below test: equal length and equal folded bytes.
  lemma LowerIsProjection(s: string)
    ensures Lower(Lower(s)) == Lower(s)
    ensures (Lower(s) == s) <==> (forall i :: 0 <= i < |s| ==> !('A' <= s[i] <= 'Z'))
  {
    if Lower(s) == s {
      forall i | 0 <= i < |s| ensures !('A' <= s[i] <= 'Z') { assert Lower(s)[i] == LowerASCII(s[i]); }
    }
  }

  lemma LowerAppend(s: string, t: string)
    ensures Lower(s + t) == Lower(s) + Lower(t)
  {}

  method EqualASCIIFold(s: string, t: string) returns (eq: bool)
    ensures eq <==> EqualFold(s, t)
  {
    if |s| != |t| {
      return false;
    }
    for i := 0 to |s|
      invariant forall k :: 0 <= k < i ==> Lower(s)[k] == Lower(t)[k]
    {
      if LowerASCII(s[i]) != LowerASCII(t[i]) {
        assert Lower(s)[i] != Lower(t)[i];
        return false;
      }
    }
    return true;
  }

  // The copy is made only when s holds an upper-case letter, and is folded in place.
  method LowerASCIIString(s: string) returns (r: string)
    ensures r == Lower(s)
  {
    var i := 0;
    while i < |s|
      invariant 0 <= i <= |s|
      invariant forall k :: 0 <= k < i ==> LowerASCII(s[k]) == s[k]
    {
      if 'A' <= s[i] <= 'Z' {
        break;
      }
      i := i + 1;
    }
    if i == |s| {
      return s;
    }
    var b := new char[|s|](k requires 0 <= k < |s| => s[k]);
    while i < b.Length
      invariant 0 <= i <= b.Length == |s|
      invariant forall k :: 0 <= k < i ==> b[k] == LowerASCII(s[k])
      invariant forall k :: i <= k < |s| ==> b[k] == s[k]
    {
      b[i] := LowerASCII(b[i]);
      i := i + 1;
    }
    return b[..];
  }
}
