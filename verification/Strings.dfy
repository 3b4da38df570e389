/** Cutting and joining text: the parts of Go's strings package that several components share. */
module Strings {
  /** strings.IndexByte, with the length of s for absence. */
  function IndexByte(s: string, c: char): (n: nat)
    ensures n <= |s| && (n < |s| ==> s[n] == c) && forall i :: 0 <= i < n ==> s[i] != c
  {
    if s == "" || s[0] == c then 0 else 1 + IndexByte(s[1..], c)
  }

  lemma IndexAfter(s: string, c: char, t: string)
    requires c !in s
    ensures IndexByte(s + [c] + t, c) == |s|
  {
    var u := s + [c] + t;
    assert u[|s|] == c;
    assert forall i :: 0 <= i < |s| ==> u[i] == s[i];
  }

  lemma IndexAbsent(s: string, c: char)
    requires c !in s
    ensures IndexByte(s, c) == |s|
  {
  }

  lemma Regroup<T>(a: seq<T>, b: seq<T>, c: seq<T>)
    ensures a + (b + c) == a + b + c
  {
  }

  /** strings.Split by one character. */
  function SplitOn(s: string, c: char): (parts: seq<string>)
    ensures |parts| >= 1
    decreases |s|
  {
    var i := IndexByte(s, c);
    if i == |s| then [s] else [s[..i]] + SplitOn(s[i + 1..], c)
  }
}
