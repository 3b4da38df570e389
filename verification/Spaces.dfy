/** White space as Go's strings and unicode packages see it, over text held as runes. */
module Spaces {
  /** unicode.IsSpace. */
  predicate IsSpace(c: char) {
    var v := c as int;
    0x09 <= v <= 0x0D || v == 0x20 || v == 0x85 || v == 0xA0 || v == 0x1680
    || 0x2000 <= v <= 0x200A || v == 0x2028 || v == 0x2029 || v == 0x202F || v == 0x205F || v == 0x3000
  }

  /** How many leading runes are white space. */
  function LeadLen(s: string): (n: nat)
    ensures n <= |s|
  {
    if s != "" && IsSpace(s[0]) then 1 + LeadLen(s[1..]) else 0
  }

  /** The length of s without the white space it ends in. */
  function BodyLen(s: string): (n: nat)
    ensures n <= |s|
  {
    if s != "" && IsSpace(s[|s| - 1]) then BodyLen(s[..|s| - 1]) else |s|
  }

  /** strings.TrimSpace. */
  function TrimSpace(s: string): string {
    s[LeadLen(s[..BodyLen(s)])..BodyLen(s)]
  }

  /** How many leading runes are not white space. */
  function WordLen(s: string): (n: nat)
    ensures n <= |s| && (n < |s| ==> IsSpace(s[n]))
    ensures forall i :: 0 <= i < n ==> !IsSpace(s[i])
  {
    if s == "" || IsSpace(s[0]) then 0 else 1 + WordLen(s[1..])
  }

  /** strings.Fields: the maximal runs of runes that are not white space. */
  function Fields(s: string): (r: seq<string>)
    ensures forall i :: 0 <= i < |r| ==> r[i] != "" && forall k :: 0 <= k < |r[i]| ==> !IsSpace(r[i][k])
  {
    if s == "" then []
    else if IsSpace(s[0]) then Fields(s[1..])
    else [s[..WordLen(s)]] + Fields(s[WordLen(s)..])
  }

  ghost predicate AllSpace(s: string) {
    forall i :: 0 <= i < |s| ==> IsSpace(s[i])
  }

  /** Text without white space. */
  ghost predicate Word(s: string) {
    s != "" && forall i :: 0 <= i < |s| ==> !IsSpace(s[i])
  }

  lemma {:induction false} BodyLenExactly(s: string)
    ensures var n := BodyLen(s); AllSpace(s[n..]) && (n > 0 ==> !IsSpace(s[n - 1]))
  {
    if s != "" && IsSpace(s[|s| - 1]) {
      var n := BodyLen(s);
      BodyLenExactly(s[..|s| - 1]);
      assert s[n..] == s[..|s| - 1][n..] + [s[|s| - 1]];
    }
  }

  lemma {:induction false} LeadLenExactly(s: string)
    ensures var n := LeadLen(s); AllSpace(s[..n]) && (n < |s| ==> !IsSpace(s[n]))
  {
    if s != "" && IsSpace(s[0]) {
      LeadLenExactly(s[1..]);
      assert s[..LeadLen(s)] == [s[0]] + s[1..][..LeadLen(s[1..])];
    }
  }

  /** What trimming leaves: the text but for white space at either end, and none of that. */
  lemma TrimSpaceExactly(s: string)
    ensures exists lead, trail :: AllSpace(lead) && AllSpace(trail) && s == lead + TrimSpace(s) + trail
    ensures TrimSpace(s) != "" ==> !IsSpace(TrimSpace(s)[0]) && !IsSpace(TrimSpace(s)[|TrimSpace(s)| - 1])
  {
    var body := s[..BodyLen(s)];
    BodyLenExactly(s);
    LeadLenExactly(body);
    assert s == body[..LeadLen(body)] + TrimSpace(s) + s[BodyLen(s)..];
  }

  /** A word after white space, at the end or before white space, is the next field. */
  lemma {:induction false} FieldsExactly(lead: string, word: string, rest: string)
    requires AllSpace(lead) && Word(word) && (rest != "" ==> IsSpace(rest[0]))
    ensures Fields(lead + word + rest) == [word] + Fields(rest)
  {
    var s := lead + word + rest;
    if lead == "" {
      WordLenExactly(word, rest);
      assert s == word + rest;
      assert s[..|word|] == word && s[|word|..] == rest;
      assert !IsSpace(s[0]);
    } else {
      FieldsExactly(lead[1..], word, rest);
      assert s[1..] == lead[1..] + word + rest;
    }
  }

  lemma {:induction false} WordLenExactly(word: string, rest: string)
    requires (forall i :: 0 <= i < |word| ==> !IsSpace(word[i])) && (rest != "" ==> IsSpace(rest[0]))
    ensures WordLen(word + rest) == |word|
  {
    if word == "" {
      assert word + rest == rest;
    } else {
      WordLenExactly(word[1..], rest);
      assert (word + rest)[1..] == word[1..] + rest;
    }
  }

  lemma {:induction false} NoFields(s: string)
    ensures AllSpace(s) <==> Fields(s) == []
  {
    if s != "" && IsSpace(s[0]) {
      NoFields(s[1..]);
      assert s == [s[0]] + s[1..];
    }
  }
}
