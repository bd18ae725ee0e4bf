/**
 reqlog.go: the path an access line records, cut on a rune boundary, and the template recorded for
 paths under a declared prefix.
 */
module ReqLog {
  import opened Text

  const TRUNCATED := "...(truncated)"
  const UNMATCHED := "(unmatched)"

  // ---------- UTF-8 (section 4 of RFC 3629) ----------

  predicate InRange(c: char, lo: int, hi: int) { lo <= c as int <= hi }

  predicate Tail(c: char) { InRange(c, 0x80, 0xBF) }

  // The length of the UTF-8 sequence at the front of s, or 0 when there is none.
  function SequenceLen(s: string): (n: nat)
    ensures n <= 4 && n <= |s|
  {
    if |s| >= 1 && s[0] as int <= 0x7F then 1
    else if |s| >= 2 && InRange(s[0], 0xC2, 0xDF) && Tail(s[1]) then 2
    else if |s| >= 3 && Tail(s[2]) &&
            ( (InRange(s[0], 0xE0, 0xE0) && InRange(s[1], 0xA0, 0xBF))
              || (InRange(s[0], 0xE1, 0xEC) && Tail(s[1]))
              || (InRange(s[0], 0xED, 0xED) && InRange(s[1], 0x80, 0x9F))
              || (InRange(s[0], 0xEE, 0xEF) && Tail(s[1])) ) then 3
    else if |s| >= 4 && Tail(s[2]) && Tail(s[3]) &&
            ( (InRange(s[0], 0xF0, 0xF0) && InRange(s[1], 0x90, 0xBF))
              || (InRange(s[0], 0xF1, 0xF3) && Tail(s[1]))
              || (InRange(s[0], 0xF4, 0xF4) && InRange(s[1], 0x80, 0x8F)) ) then 4
    else 0
  }

  predicate ValidUtf8(s: string)
    decreases |s|
  {
    s == "" || (SequenceLen(s) > 0 && ValidUtf8(s[SequenceLen(s)..]))
  }

  // utf8.RuneStart
  predicate RuneStart(c: char) { !Tail(c) }

  // ---------- the cap ----------

  // Where the cut falls: the last rune start at or below the cap, or the front.
  function Cut(p: string, at: nat): (cut: nat)
    requires at < |p|
    ensures cut <= at && (cut == 0 || RuneStart(p[cut]))
    ensures forall k :: cut < k <= at ==> !RuneStart(p[k])
  {
    if at == 0 || RuneStart(p[at]) then at else Cut(p, at - 1)
  }

  function Bounded(p: string, maxLen: nat): string {
    if |p| <= maxLen then p else p[..Cut(p, maxLen)] + TRUNCATED
  }

  // boundLoggedPath
  method BoundLoggedPath(p: string, maxLen: nat) returns (r: string)
    ensures r == Bounded(p, maxLen)
  {
    if |p| <= maxLen {
      return p;
    }
    var cut: nat := maxLen;
    while cut > 0 && !RuneStart(p[cut])
      invariant cut <= maxLen && Cut(p, maxLen) == Cut(p, cut)
    {
      cut := cut - 1;
    }
    return p[..cut] + TRUNCATED;
  }

  // A sequence starts with a rune start and goes on with tails.
  lemma SequenceShape(s: string)
    requires SequenceLen(s) > 0
    ensures RuneStart(s[0]) && forall k :: 1 <= k < SequenceLen(s) ==> Tail(s[k])
  {}

  // Cutting valid text at a rune start leaves valid text on both sides.
  lemma {:induction false} CutIsValid(s: string, k: nat)
    requires ValidUtf8(s) && k < |s| && (k == 0 || RuneStart(s[k]))
    ensures ValidUtf8(s[..k])
    decreases |s|
  {
    hide SequenceLen;
    if k > 0 {
      var n := SequenceLen(s);
      SequenceShape(s);
      var rest := s[n..];
      if k == n {
        PrefixSequence(s, k);
        WholeIsValid(s[..k]);
      } else {
        assert rest[k - n] == s[k];
        CutIsValid(rest, k - n);
        PrefixSequence(s, k);
        assert s[..k][n..] == rest[..k - n];
      }
    }
  }

  // The first sequence is read from the bytes it spans.
  lemma PrefixSequence(s: string, k: nat)
    requires SequenceLen(s) > 0 && SequenceLen(s) <= k <= |s|
    ensures SequenceLen(s[..k]) == SequenceLen(s)
  {}

  lemma WholeIsValid(s: string)
    requires SequenceLen(s) == |s|
    ensures ValidUtf8(s)
  {
    if s != "" { assert s[|s|..] == ""; }
  }

  // In valid text no more than three tails stand together.
  lemma {:induction false} NearRuneStart(s: string, k: nat)
    requires ValidUtf8(s) && k < |s|
    ensures exists j :: 0 <= j <= k < j + 4 && RuneStart(s[j])
    decreases |s|
  {
    hide SequenceLen;
    var n := SequenceLen(s);
    SequenceShape(s);
    if k >= n {
      var rest := s[n..];
      NearRuneStart(rest, k - n);
      var j :| 0 <= j <= k - n < j + 4 && RuneStart(rest[j]);
      assert RuneStart(s[n + j]);
    }
  }

  lemma {:induction false} Utf8Append(a: string, b: string)
    requires ValidUtf8(a) && ValidUtf8(b)
    ensures ValidUtf8(a + b)
    decreases |a|
  {
    hide SequenceLen;
    if a == "" {
      assert a + b == b;
    } else {
      var n := SequenceLen(a);
      assert (a + b)[..|a|] == a;
      SequenceGrows(a, b);
      assert (a + b)[n..] == a[n..] + b;
      Utf8Append(a[n..], b);
    }
  }

  lemma SequenceGrows(a: string, b: string)
    requires SequenceLen(a) > 0
    ensures SequenceLen(a + b) == SequenceLen(a)
  {}

  lemma {:induction false} AsciiIsValid(s: string)
    requires forall k :: 0 <= k < |s| ==> s[k] as int <= 0x7F
    ensures ValidUtf8(s)
    decreases |s|
  {
    if s != "" { AsciiIsValid(s[1..]); }
  }

  // The cap is a function on all byte strings: the identity within it, and past it a prefix of at most
  // maxLen bytes and the marker. On valid UTF-8 the result is valid UTF-8 and the cut gives up at most
  // three bytes of the cap.
  lemma BoundMeaning(p: string, maxLen: nat)
    ensures |p| <= maxLen ==> Bounded(p, maxLen) == p
    ensures |p| > maxLen ==> exists cut :: 0 <= cut <= maxLen && Bounded(p, maxLen) == p[..cut] + TRUNCATED
                                           && (ValidUtf8(p) ==> maxLen - cut <= 3)
    ensures |Bounded(p, maxLen)| <= maxLen + |TRUNCATED|
    ensures ValidUtf8(p) ==> ValidUtf8(Bounded(p, maxLen))
  {
    if |p| > maxLen {
      var cut := Cut(p, maxLen);
      if ValidUtf8(p) {
        NearRuneStart(p, maxLen);
        var j :| 0 <= j <= maxLen < j + 4 && RuneStart(p[j]);
        CutIsValid(p, cut);
        AsciiIsValid(TRUNCATED);
        Utf8Append(p[..cut], TRUNCATED);
      }
      assert Bounded(p, maxLen) == p[..cut] + TRUNCATED;
    }
  }

  // ---------- path templates ----------

  // under is the longest declared prefix of p, or empty.
  ghost predicate LongestUnder(p: string, prefixes: seq<string>, under: string) {
    && (under == "" || (under in prefixes && HasPrefix(p, under)))
    && forall q :: q in prefixes && HasPrefix(p, q) ==> |q| <= |under|
  }

  // templatePath, for a request with the given path and matched pattern
  method TemplatePath(path: string, pattern: string, prefixes: seq<string>) returns (r: string)
    ensures (forall q :: q in prefixes && HasPrefix(path, q) ==> q == "") ==> r == path
    ensures (exists q :: q in prefixes && HasPrefix(path, q) && q != "") ==>
              if '/' in pattern then r == pattern[IndexOf(pattern, '/')..]
              else exists under :: under != "" && LongestUnder(path, prefixes, under) && r == under + UNMATCHED
  {
    var under := "";
    for i := 0 to |prefixes|
      invariant under == "" || (under in prefixes && HasPrefix(path, under))
      invariant forall k :: 0 <= k < i && HasPrefix(path, prefixes[k]) ==> |prefixes[k]| <= |under|
    {
      if HasPrefix(path, prefixes[i]) && |prefixes[i]| > |under| {
        under := prefixes[i];
      }
    }
    assert LongestUnder(path, prefixes, under);
    if under == "" {
      return path;
    }
    var i := IndexOf(pattern, '/');
    if i >= 0 {
      return pattern[i..];
    }
    return under + UNMATCHED;
  }

  // Two longest prefixes of one path are the same.
  lemma LongestIsUnique(p: string, prefixes: seq<string>, a: string, b: string)
    requires a != "" && b != "" && LongestUnder(p, prefixes, a) && LongestUnder(p, prefixes, b)
    ensures a == b
  {
    assert p[..|a|] == a && p[..|b|] == b;
  }
}
