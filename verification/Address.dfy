/**
 Addresses and their EIP-55 text form. The replay record is keyed by that text,
 so two addresses must never share it, whatever the hash that picks the case of
 each letter returns.
 */
module Address {
  import opened Wrappers

  type Byte = b: int | 0 <= b < 256

  type Address = a: seq<Byte> | |a| == 20 witness seq(20, _ => 0)

  type Digest = d: seq<Byte> | |d| == 32 witness seq(32, _ => 0)

  /** Keccak-256, left uninterpreted. */
  type Keccak = string -> Digest

  datatype ParseError = NotTwentyBytes | NotHex

  predicate IsLowerHexLetter(c: char) {
    'a' <= c <= 'f'
  }

  function ToLower(c: char): char {
    if 'A' <= c <= 'Z' then (c as int + 32) as char else c
  }

  function Lower(s: string): (t: string)
    ensures |t| == |s|
  {
    seq(|s|, i requires 0 <= i < |s| => ToLower(s[i]))
  }

  function HexDigit(v: int): (c: char)
    requires 0 <= v < 16
    ensures HexValue(c) == Some(v) && ToLower(c) == c
  {
    if v < 10 then ('0' as int + v) as char else ('a' as int + v - 10) as char
  }

  function HexValue(c: char): Option<int> {
    if '0' <= c <= '9' then Some(c as int - '0' as int)
    else if 'a' <= c <= 'f' then Some(c as int - 'a' as int + 10)
    else if 'A' <= c <= 'F' then Some(c as int - 'A' as int + 10)
    else None
  }

  /** hex.EncodeToString. */
  function EncodeHex(b: seq<Byte>): (s: string)
    ensures |s| == 2 * |b|
    ensures forall i :: 0 <= i < |s| ==> HexValue(s[i]).Some? && ToLower(s[i]) == s[i]
  {
    if b == [] then "" else [HexDigit(b[0] / 16), HexDigit(b[0] % 16)] + EncodeHex(b[1..])
  }

  /** hex.DecodeString: digits of either case, in pairs. */
  function DecodeHex(s: string): (r: Option<seq<Byte>>)
    ensures r.Some? ==> 2 * |r.value| == |s|
  {
    if s == "" then Some([])
    else if |s| < 2 || HexValue(s[0]).None? || HexValue(s[1]).None? then None
    else match DecodeHex(s[2..])
      case None => None
      case Some(rest) => Some([PairValue(s[0], s[1])] + rest)
  }

  function PairValue(hi: char, lo: char): Byte
    requires HexValue(hi).Some? && HexValue(lo).Some?
  {
    16 * HexValue(hi).value + HexValue(lo).value
  }

  function TrimPrefix(s: string, prefix: string): string {
    if prefix <= s then s[|prefix|..] else s
  }

  function Strip(s: string): string {
    TrimPrefix(TrimPrefix(s, "0x"), "0X")
  }

  function ParseAddress(s: string): Result<Address, ParseError> {
    var raw := Strip(s);
    if |raw| != 40 then Err(NotTwentyBytes)
    else match DecodeHex(raw)
      case None => Err(NotHex)
      case Some(b) => Ok(b)
  }

  /** Whether the hash asks for the i-th digit in upper case. */
  predicate WantsUpper(hash: Digest, i: nat)
    requires i < 40
  {
    (if i % 2 == 0 then hash[i / 2] / 16 else hash[i / 2] % 16) >= 8
  }

  function Cased(lower: string, hash: Digest, i: nat): char
    requires |lower| == 40 && i < 40
  {
    if IsLowerHexLetter(lower[i]) && WantsUpper(hash, i) then (lower[i] as int - 32) as char else lower[i]
  }

  /** The EIP-55 text of a. */
  function HexOf(a: Address, keccak: Keccak): string {
    var lower := EncodeHex(a);
    "0x" + seq(40, i requires 0 <= i < 40 => Cased(lower, keccak(lower), i))
  }

  /** Hex: copy the lower-case digits and rewrite in place those the hash picks. */
  method Hex(a: Address, keccak: Keccak) returns (s: string)
    ensures s == HexOf(a, keccak)
  {
    var lower := EncodeHex(a);
    var hash := keccak(lower);
    var out := new char[40](i requires 0 <= i < 40 => lower[i]);
    for i := 0 to 40
      invariant forall k :: 0 <= k < i ==> out[k] == Cased(lower, hash, k)
      invariant forall k :: i <= k < 40 ==> out[k] == lower[k]
    {
      if IsLowerHexLetter(out[i]) {
        var nibble := hash[i / 2];
        if i % 2 == 0 {
          nibble := nibble / 16;
        }
        if nibble % 16 >= 8 {
          out[i] := (out[i] as int - 32) as char;
        }
      }
    }
    s := "0x" + out[..];
  }

  lemma PairIgnoresCase(hi: char, lo: char, b: Byte)
    ensures ToLower(hi) == HexDigit(b / 16) && ToLower(lo) == HexDigit(b % 16)
       <==> HexValue(hi).Some? && HexValue(lo).Some? && PairValue(hi, lo) == b
  {
    assert HexValue(ToLower(hi)) == HexValue(hi) || HexValue(hi).None?;
  }

  lemma {:induction false} DecodeIgnoresCase(s: string, b: seq<Byte>)
    ensures DecodeHex(s) == Some(b) <==> Lower(s) == EncodeHex(b)
  {
    if |s| >= 2 && b != [] {
      PairIgnoresCase(s[0], s[1], b[0]);
      DecodeIgnoresCase(s[2..], b[1..]);
      assert Lower(s) == [ToLower(s[0]), ToLower(s[1])] + Lower(s[2..]);
      assert Lower(s)[2..] == Lower(s[2..]) && EncodeHex(b)[2..] == EncodeHex(b[1..]);
      if DecodeHex(s).Some? {
        assert DecodeHex(s).value[1..] == DecodeHex(s[2..]).value;
      }
      assert b == [b[0]] + b[1..];
    } else {
      assert |Lower(s)| == |EncodeHex(b)| ==> s == "" && b == [];
    }
  }

  lemma StrippedIsTheDigits(s: string, a: Address)
    ensures ParseAddress(s) == Ok(a) <==> Lower(Strip(s)) == EncodeHex(a)
  {
    DecodeIgnoresCase(Strip(s), a);
  }

  /** s is this prefix and the digits of a, in any case. */
  predicate Spells(s: string, prefix: string, a: Address) {
    prefix <= s && Lower(s[|prefix|..]) == EncodeHex(a)
  }

  lemma DigitsAreNoPrefix(s: string, a: Address)
    requires Lower(s) == EncodeHex(a)
    ensures !("0x" <= s) && !("0X" <= s)
  {
    assert |s| == 40 && ToLower(s[1]) == Lower(s)[1] == EncodeHex(a)[1];
    assert HexValue('x').None?;
  }

  /** ParseAddress accepts exactly four spellings: the forty digits in any case, bare or after 0x, 0X or both. */
  lemma ParseAcceptsExactly(s: string, a: Address)
    ensures ParseAddress(s) == Ok(a) <==> Spells(s, "", a) || Spells(s, "0x", a) || Spells(s, "0X", a) || Spells(s, "0x0X", a)
  {
    StrippedIsTheDigits(s, a);
    assert s[0..] == s;
    if "0x" <= s && "0X" <= s[2..] {
      assert s[2..][2..] == s[4..];
    }
    if Spells(s, "", a) {
      DigitsAreNoPrefix(s, a);
    }
    if Spells(s, "0x", a) {
      DigitsAreNoPrefix(s[2..], a);
    }
    if Spells(s, "0x0X", a) {
      assert s[2..][..2] == "0X" && s[2..][2..] == s[4..];
    }
  }

  /** The i-th half of the bytes. */
  function Nibble(b: seq<Byte>, i: nat): int
    requires i < 2 * |b|
  {
    if i % 2 == 0 then b[i / 2] / 16 else b[i / 2] % 16
  }

  lemma {:induction false} EncodedAt(b: seq<Byte>, i: nat)
    requires i < 2 * |b|
    ensures EncodeHex(b)[i] == HexDigit(Nibble(b, i))
  {
    if i >= 2 {
      EncodedAt(b[1..], i - 2);
    }
  }

  /** The text digit by digit: the address's, a letter in upper case exactly when the hash's digit there is 8 or more. */
  lemma HexExactly(a: Address, keccak: Keccak, i: nat)
    requires i < 40
    ensures var s := HexOf(a, keccak);
            && |s| == 42 && s[..2] == "0x" && HexValue(s[2 + i]) == Some(Nibble(a, i))
            && ('A' <= s[2 + i] <= 'F' <==> Nibble(a, i) >= 10 && Nibble(keccak(EncodeHex(a)), i) >= 8)
  {
    EncodedAt(a, i);
    assert HexOf(a, keccak)[2 + i] == Cased(EncodeHex(a), keccak(EncodeHex(a)), i);
  }

  /** Whatever the hash, reading the text of an address gives the address back. */
  lemma HexRoundTrip(a: Address, keccak: Keccak)
    ensures ParseAddress(HexOf(a, keccak)) == Ok(a)
  {
    var s := HexOf(a, keccak);
    var raw := s[2..];
    assert raw[1] != 'X' by {
      assert EncodeHex(a)[1] == HexDigit(a[0] % 16);
    }
    assert Strip(s) == raw;
    forall i | 0 <= i < 40 ensures Lower(raw)[i] == EncodeHex(a)[i] {
      assert raw[i] == Cased(EncodeHex(a), keccak(EncodeHex(a)), i);
    }
    StrippedIsTheDigits(s, a);
  }

  lemma HexInjective(a: Address, b: Address, keccak: Keccak)
    requires HexOf(a, keccak) == HexOf(b, keccak)
    ensures a == b
  {
    HexRoundTrip(a, keccak);
    HexRoundTrip(b, keccak);
  }
}
