/** The part of Go's strings package that the store and the handlers use:
    ToLower, EqualFold, SplitN with a limit of 2 and Index, over
    characters. Case mapping covers ASCII letters only. */
module Strings {

  predicate IsUpper(c: char) {
    'A' <= c <= 'Z'
  }

  function LowerChar(c: char): (d: char)
    ensures !IsUpper(d)
    ensures IsUpper(c) ==> d as int == c as int + 32
    ensures !IsUpper(c) ==> d == c
  {
    if IsUpper(c) then (c as int + 32) as char else c
  }

  /** No upper-case letter occurs in s. */
  predicate IsLower(s: string) {
    forall i :: 0 <= i < |s| ==> !IsUpper(s[i])
  }

  /** strings.ToLower: each character lowered in place. */
  function ToLower(s: string): (r: string)
    ensures |r| == |s|
    ensures forall i :: 0 <= i < |s| ==> r[i] == LowerChar(s[i])
    ensures IsLower(r)
  {
    if s == [] then [] else [LowerChar(s[0])] + ToLower(s[1..])
  }

  /** Lowering changes nothing in a string that has no upper-case letter. */
  lemma {:induction false} ToLowerOfLower(s: string)
    requires IsLower(s)
    ensures ToLower(s) == s
  {
    if s != [] {
      ToLowerOfLower(s[1..]);
    }
  }

  lemma ToLowerIdempotent(s: string)
    ensures ToLower(ToLower(s)) == ToLower(s)
  {
    ToLowerOfLower(ToLower(s));
  }

  /** strings.EqualFold: equal under case folding. */
  predicate EqualFold(a: string, b: string): (r: bool)
    ensures r ==> |a| == |b|
    ensures a == b ==> r
    ensures ToLower(a) == a && ToLower(b) == b ==> (r <==> a == b)
  {
    ToLower(a) == ToLower(b)
  }

  /** Two strings fold equal exactly when they have the same length and
      agree letter by letter up to case. */
  lemma EqualFoldPointwise(a: string, b: string)
    ensures EqualFold(a, b) <==>
      |a| == |b| && forall i :: 0 <= i < |a| ==> LowerChar(a[i]) == LowerChar(b[i])
  {
    if |a| == |b| && forall i :: 0 <= i < |a| ==> LowerChar(a[i]) == LowerChar(b[i]) {
      assert forall i :: 0 <= i < |a| ==> ToLower(a)[i] == ToLower(b)[i];
    }
  }

  /** strings.Index for a one-character needle: the first position of c, or -1. */
  function Index(s: string, c: char): (r: int)
    ensures -1 <= r < |s|
    ensures r == -1 <==> c !in s
    ensures r >= 0 ==> s[r] == c && c !in s[..r]
  {
    if s == [] then -1
    else if s[0] == c then 0
    else
      var k := Index(s[1..], c);
      assert s[1..] == s[..|s|][1..];
      if k == -1 then -1
      else
        assert s[..k + 1] == [s[0]] + s[1..][..k];
        k + 1
  }

  /** strings.SplitN(s, [c], 2): one part when c does not occur, otherwise
      the text before the first c and everything after it. */
  function SplitN2(s: string, c: char): (parts: seq<string>)
    ensures 1 <= |parts| <= 2
    ensures |parts| == 1 <==> c !in s
    ensures |parts| == 1 ==> parts[0] == s
    ensures |parts| == 2 ==> s == parts[0] + [c] + parts[1] && c !in parts[0]
  {
    var i := Index(s, c);
    if i < 0 then [s]
    else
      assert s == s[..i] + [c] + s[i + 1..];
      [s[..i], s[i + 1..]]
  }

  /** Splitting at the first c recovers the two halves it was built from. */
  lemma {:induction false} SplitN2Join(a: string, c: char, b: string)
    requires c !in a
    ensures SplitN2(a + [c] + b, c) == [a, b]
  {
    var s := a + [c] + b;
    assert s[|a|] == c;
    IndexOfJoin(a, c, b);
    assert s[..|a|] == a;
    assert s[|a| + 1..] == b;
  }

  lemma {:induction false} IndexOfJoin(a: string, c: char, b: string)
    requires c !in a
    ensures Index(a + [c] + b, c) == |a|
  {
    var s := a + [c] + b;
    assert s[|a|] == c;
    assert s[..|a|] == a;
  }
}
