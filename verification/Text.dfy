/**
 String helpers standing for the parts of Go's strings package the models use. A Go string is a
 sequence of bytes; here byte b is the character with code b, so every byte string is a Dafny string.
 */
module Text {
  datatype Option<+T> = None | Some(value: T)

  function Join(parts: seq<string>, sep: string): string {
    if |parts| == 0 then ""
    else if |parts| == 1 then parts[0]
    else parts[0] + sep + Join(parts[1..], sep)
  }

  predicate All(s: string, p: char -> bool) {
    forall i :: 0 <= i < |s| ==> p(s[i])
  }

  predicate IsOws(c: char) { c == ' ' || c == '\t' }

  predicate IsDigit(c: char) { '0' <= c <= '9' }

  function TrimLeft(s: string, p: char -> bool): (r: string)
    ensures r == "" || !p(r[0])
    ensures |r| <= |s| && All(s[..|s| - |r|], p) && s[|s| - |r|..] == r
  {
    if s != "" && p(s[0]) then
      var r := TrimLeft(s[1..], p);
      assert s[1..][|s[1..]| - |r|..] == s[|s| - |r|..];
      assert forall i :: 1 <= i < |s| - |r| ==> s[i] == s[1..][..|s[1..]| - |r|][i - 1];
      r
    else s
  }

  function TrimRight(s: string, p: char -> bool): (r: string)
    ensures r == "" || !p(r[|r| - 1])
    ensures |r| <= |s| && All(s[|r|..], p) && s[..|r|] == r
  {
    if s != "" && p(s[|s| - 1]) then
      var t := s[..|s| - 1];
      var r := TrimRight(t, p);
      assert forall i :: |r| <= i < |t| ==> s[i] == t[|r|..][i - |r|];
      r
    else s
  }

  // strings.Trim with a cutset given as a predicate.
  function Trim(s: string, p: char -> bool): (r: string)
    ensures r == "" || (!p(r[0]) && !p(r[|r| - 1]))
  {
    TrimRight(TrimLeft(s, p), p)
  }

  lemma Halves(s: string, k: nat)
    requires k <= |s|
    ensures s == s[..k] + s[k..]
  {}

  // A trimmed string is the middle of what it was trimmed from.
  lemma TrimSplits(s: string, p: char -> bool) returns (left: string, right: string)
    ensures s == left + Trim(s, p) + right
    ensures All(left, p) && All(right, p)
  {
    hide TrimLeft, TrimRight;
    var t := TrimLeft(s, p);
    var r := TrimRight(t, p);
    left, right := s[..|s| - |t|], t[|r|..];
    Thirds(s, left, t, r, right);
  }

  lemma Thirds(s: string, left: string, t: string, r: string, right: string)
    requires |t| <= |s| && left == s[..|s| - |t|] && t == s[|s| - |t|..]
    requires |r| <= |t| && r == t[..|r|] && right == t[|r|..]
    ensures s == left + r + right
  {
    Halves(s, |s| - |t|);
    Halves(t, |r|);
    assert left + (r + right) == left + r + right;
  }

  lemma {:induction false} TrimLeftSkips(left: string, s: string, p: char -> bool)
    requires All(left, p)
    ensures TrimLeft(left + s, p) == TrimLeft(s, p)
  {
    if left == "" {
      assert left + s == s;
    } else {
      assert (left + s)[1..] == left[1..] + s;
      TrimLeftSkips(left[1..], s, p);
    }
  }

  lemma {:induction false} TrimRightSkips(s: string, right: string, p: char -> bool)
    requires All(right, p)
    ensures TrimRight(s + right, p) == TrimRight(s, p)
  {
    if right == "" {
      assert s + right == s;
    } else {
      var t := right[..|right| - 1];
      assert (s + right)[..|s + right| - 1] == s + t;
      TrimRightSkips(s, t, p);
    }
  }

  // Trimming removes exactly the run of p on each side.
  lemma TrimUnique(left: string, e: string, right: string, p: char -> bool)
    requires All(left, p) && All(right, p)
    requires e == "" || (!p(e[0]) && !p(e[|e| - 1]))
    ensures Trim(left + e + right, p) == e
  {
    assert left + e + right == left + (e + right);
    TrimLeftSkips(left, e + right, p);
    if e == "" {
      assert e + right == right + "";
      TrimLeftSkips(right, "", p);
    } else {
      assert TrimLeft(e + right, p) == e + right;
      TrimRightSkips(e, right, p);
    }
  }

  function IndexOf(s: string, c: char): (i: int)
    ensures -1 <= i < |s|
    ensures i < 0 ==> c !in s
    ensures i >= 0 ==> s[i] == c && c !in s[..i]
  {
    if s == "" then -1
    else if s[0] == c then 0
    else
      var i := IndexOf(s[1..], c);
      assert s == [s[0]] + s[1..];
      if i < 0 then -1 else
        assert s[..i + 1] == [s[0]] + s[1..][..i];
        i + 1
  }

  lemma {:induction false} IndexOfAt(s: string, c: char, i: nat)
    requires i < |s| && s[i] == c && c !in s[..i]
    ensures IndexOf(s, c) == i
  {
    if i > 0 {
      assert s[0] in s[..i];
      assert forall x :: x in s[1..][..i - 1] ==> x in s[..i];
      IndexOfAt(s[1..], c, i - 1);
    }
  }

  datatype Cut = Cut(before: string, after: string, found: bool)

  // strings.Cut around the first c.
  function CutAt(s: string, c: char): Cut {
    var i := IndexOf(s, c);
    if i < 0 then Cut(s, "", false) else Cut(s[..i], s[i + 1..], true)
  }

  lemma CutJoins(s: string, c: char)
    ensures var cut := CutAt(s, c);
            s == if cut.found then cut.before + [c] + cut.after else cut.before
  {}

  predicate HasPrefix(s: string, prefix: string) { prefix <= s }

  function CutPrefix(s: string, prefix: string): (string, bool) {
    if prefix <= s then (s[|prefix|..], true) else (s, false)
  }

  function CutSuffix(s: string, suffix: string): string {
    if |suffix| <= |s| && s[|s| - |suffix|..] == suffix then s[..|s| - |suffix|] else s
  }
}
