/**
 UTF-8 as the source handles it. A Go string is a sequence of bytes; here it is
 a string whose characters stand for bytes, so a character below 0x80 is ASCII
 and the characters 0x80 to 0xFF are the parts of a multi-byte rune.
 */
module Utf8 {
  predicate In(s: string, i: nat, lo: int, hi: int) {
    i < |s| && lo <= s[i] as int <= hi
  }

  /** utf8.RuneStart: every byte but a continuation byte begins a rune. */
  predicate RuneStart(c: char) {
    !(0x80 <= c as int < 0xC0)
  }

  /** Whether cutting s before index i splits no rune. */
  predicate Boundary(s: string, i: nat) {
    i == |s| || (i < |s| && RuneStart(s[i]))
  }

  /** The length of the well-formed rune s begins with, 0 if there is none. */
  function RuneLen(s: string): (n: nat)
    ensures n <= |s|
    ensures forall i :: 0 < i < n ==> !RuneStart(s[i])
  {
    if In(s, 0, 0x00, 0x7F) then 1
    else if In(s, 0, 0xC2, 0xDF) && In(s, 1, 0x80, 0xBF) then 2
    else if In(s, 2, 0x80, 0xBF)
         && ((In(s, 0, 0xE0, 0xE0) && In(s, 1, 0xA0, 0xBF))
             || (In(s, 0, 0xE1, 0xEC) && In(s, 1, 0x80, 0xBF))
             || (In(s, 0, 0xED, 0xED) && In(s, 1, 0x80, 0x9F))
             || (In(s, 0, 0xEE, 0xEF) && In(s, 1, 0x80, 0xBF))) then 3
    else if In(s, 2, 0x80, 0xBF) && In(s, 3, 0x80, 0xBF)
         && ((In(s, 0, 0xF0, 0xF0) && In(s, 1, 0x90, 0xBF))
             || (In(s, 0, 0xF1, 0xF3) && In(s, 1, 0x80, 0xBF))
             || (In(s, 0, 0xF4, 0xF4) && In(s, 1, 0x80, 0x8F))) then 4
    else 0
  }

  predicate Valid(s: string) {
    s == "" || (RuneLen(s) > 0 && Valid(s[RuneLen(s)..]))
  }

  /** A rune is recognised from its own bytes alone. */
  lemma RuneLenIsLocal(s: string, u: string)
    requires 0 < RuneLen(s) <= |u| && u[..RuneLen(s)] == s[..RuneLen(s)]
    ensures RuneLen(u) == RuneLen(s)
  {
    var n := RuneLen(s);
    assert forall i :: 0 <= i < n ==> u[i] == u[..n][i] == s[i];
  }

  /** Cutting valid text at a rune boundary leaves two valid pieces. */
  lemma {:induction false} ValidSplit(s: string, i: nat)
    requires Valid(s) && i <= |s| && Boundary(s, i)
    ensures Valid(s[..i]) && Valid(s[i..])
    decreases |s|
  {
    if i == 0 {
      assert s[0..] == s;
    } else {
      var n := RuneLen(s);
      var rest := s[n..];
      assert n <= i;
      ValidSplit(rest, i - n);
      assert rest[i - n..] == s[i..];
      assert rest[..i - n] == s[..i][n..];
      assert s[..i][..n] == s[..n];
      RuneLenIsLocal(s, s[..i]);
    }
  }

  lemma SplitConcat(s: string, t: string, n: nat)
    requires n <= |s|
    ensures (s + t)[n..] == s[n..] + t && (s + t)[..n] == s[..n]
  {
  }

  lemma {:induction false} ValidConcat(s: string, t: string)
    requires Valid(s) && Valid(t)
    ensures Valid(s + t)
    decreases |s|
  {
    if s == "" {
      assert s + t == t;
    } else {
      var n := RuneLen(s);
      ValidConcat(s[n..], t);
      SplitConcat(s, t, n);
      RuneLenIsLocal(s, s + t);
    }
  }

  /** The largest place at or before i where s may be cut; 0 when every one of them splits a rune. */
  function AtOrBefore(s: string, i: nat): (r: nat)
    requires i <= |s|
    ensures r <= i && (r == 0 || Boundary(s, r))
    ensures forall k :: r < k <= i ==> !Boundary(s, k)
  {
    if i == 0 || Boundary(s, i) then i else AtOrBefore(s, i - 1)
  }

  /** The smallest place at or after i where s may be cut. */
  function AtOrAfter(s: string, i: nat): (r: nat)
    requires i <= |s|
    ensures i <= r <= |s| && Boundary(s, r)
    ensures forall k :: i <= k < r ==> !Boundary(s, k)
    decreases |s| - i
  {
    if Boundary(s, i) then i else AtOrAfter(s, i + 1)
  }

  /** Cutting valid text where these functions say leaves valid text, and drops at most three bytes for it. */
  lemma CutsAreValid(s: string, i: nat)
    requires Valid(s) && i <= |s|
    ensures Valid(s[..AtOrBefore(s, i)]) && Valid(s[AtOrAfter(s, i)..])
    ensures AtOrBefore(s, i) + 3 >= i && AtOrAfter(s, i) <= i + 3
  {
    if s != "" {
      assert Boundary(s, 0);
      NearBoundary(s, i);
      NearBoundary(s, if i + 3 < |s| then i + 3 else |s|);
    }
    ValidSplit(s, AtOrBefore(s, i));
    ValidSplit(s, AtOrAfter(s, i));
  }

  /** In valid text no four positions in a row are inside a rune. */
  lemma {:induction false} NearBoundary(s: string, i: nat)
    requires Valid(s) && i <= |s| && s != ""
    ensures exists k :: i - 3 <= k <= i && 0 <= k && Boundary(s, k)
    decreases i
  {
    var n := RuneLen(s);
    if i < n {
      assert Boundary(s, 0);
    } else if i == n && s[n..] == "" {
      assert Boundary(s, n);
    } else {
      NearBoundary(s[n..], i - n);
      var k :| i - n - 3 <= k <= i - n && 0 <= k && Boundary(s[n..], k);
      assert Boundary(s, k + n);
    }
  }

  lemma {:induction false} AsciiIsValid(s: string)
    requires forall i :: 0 <= i < |s| ==> s[i] as int < 0x80
    ensures Valid(s)
  {
    if s != "" {
      AsciiIsValid(s[1..]);
    }
  }
}
