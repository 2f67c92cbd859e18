/** Numbers as text: decimal numerals, and octets as two hexadecimal digits. */
module Numerals {
  import opened Bytes
  import opened Wrappers

  function DecimalDigit(d: int): (c: char)
    requires 0 <= d < 10
  {
    "0123456789"[d]
  }

  function Decimal(n: nat): (s: string)
    ensures |s| > 0
    ensures forall i :: 0 <= i < |s| ==> '0' <= s[i] <= '9'
  {
    if n < 10 then [DecimalDigit(n)] else Decimal(n / 10) + [DecimalDigit(n % 10)]
  }

  lemma {:induction false} DecimalInjective(m: nat, n: nat)
    ensures Decimal(m) == Decimal(n) <==> m == n
    decreases m
  {
    var s, t := Decimal(m), Decimal(n);
    if s == t {
      assert s[|s| - 1] == t[|t| - 1];
      assert m % 10 == n % 10;
      if m >= 10 && n >= 10 {
        assert s[..|s| - 1] == Decimal(m / 10) && t[..|t| - 1] == Decimal(n / 10);
        DecimalInjective(m / 10, n / 10);
      }
    }
  }

  /** The number that decimal digits spell. */
  function DecimalValue(s: string): nat
    requires forall i :: 0 <= i < |s| ==> '0' <= s[i] <= '9'
  {
    if s == "" then 0 else 10 * DecimalValue(s[..|s| - 1]) + (s[|s| - 1] as int - '0' as int)
  }

  /** A number reads back from its digits, which have no leading zero. */
  lemma {:induction false} DecimalReadsBack(n: nat)
    ensures DecimalValue(Decimal(n)) == n
    ensures n > 0 ==> Decimal(n)[0] != '0'
  {
    var s := Decimal(n);
    DigitIs(n % 10);
    if n >= 10 {
      DecimalReadsBack(n / 10);
      assert s[..|s| - 1] == Decimal(n / 10);
    } else {
      assert s[..0] == "";
    }
  }

  lemma DigitIs(d: int)
    requires 0 <= d < 10
    ensures DecimalDigit(d) as int == '0' as int + d
  {
  }

  // --- Octets as hexadecimal digits ---

  datatype Letters = Upper | Lower

  /** Digit n of "0123456789ABCDEF" or of "0123456789abcdef". */
  function HexDigit(n: int, letters: Letters): (c: char)
    requires 0 <= n < 16
  {
    if n < 10 then ('0' as int + n) as char
    else ((if letters == Upper then 'A' else 'a') as int + (n - 10)) as char
  }

  lemma HexDigitsAre(n: int)
    requires 0 <= n < 16
    ensures HexDigit(n, Upper) == "0123456789ABCDEF"[n] && HexDigit(n, Lower) == "0123456789abcdef"[n]
  {
  }

  function Nibble(c: char): (n: Option<int>)
    ensures n.Some? ==> 0 <= n.value < 16
  {
    if '0' <= c <= '9' then Some(c as int - '0' as int)
    else if 'a' <= c <= 'f' then Some(c as int - 'a' as int + 10)
    else if 'A' <= c <= 'F' then Some(c as int - 'A' as int + 10)
    else None
  }

  function HexText(bytes: seq<byte>, letters: Letters): (s: string)
    ensures |s| == 2 * |bytes|
  {
    if bytes == [] then ""
    else
      [HexDigit(bytes[0] / 0x10, letters), HexDigit(bytes[0] % 0x10, letters)] + HexText(bytes[1..], letters)
  }

  method ToHex(bytes: seq<byte>, letters: Letters) returns (out: string)
    ensures out == HexText(bytes, letters)
  {
    out := "";
    for i := 0 to |bytes|
      invariant out + HexText(bytes[i..], letters) == HexText(bytes, letters)
    {
      hide HexDigit;
      ghost var before := out;
      assert bytes[i..][0] == bytes[i] && bytes[i..][1..] == bytes[i + 1..];
      out := out + [HexDigit(bytes[i] / 0x10, letters)];
      out := out + [HexDigit(bytes[i] % 0x10, letters)];
      assert before + HexText(bytes[i..], letters) == out + HexText(bytes[i + 1..], letters);
    }
    assert out + HexText([], letters) == out;
    assert bytes[|bytes|..] == [];
  }

  /** The octets of a run of digit pairs; None on a character that is no digit. */
  function HexOctets(s: string): (r: Option<seq<byte>>)
    requires |s| % 2 == 0
    ensures r.Some? ==> |s| == 2 * |r.value|
  {
    if s == "" then Some([])
    else
      match (Nibble(s[0]), Nibble(s[1]), HexOctets(s[2..]))
      case (Some(hi), Some(lo), Some(rest)) => Some([0x10 * hi + lo] + rest)
      case _ => None
  }

  predicate HasHexPrefix(s: string) {
    |s| >= 2 && s[0] == '0' && (s[1] == 'x' || s[1] == 'X')
  }

  function StripHexPrefix(s: string): string {
    if HasHexPrefix(s) then s[2..] else s
  }

  /** What hex-encoded bytes stand for: an optional 0x prefix, then at least
      one digit pair. */
  function ParsedHex(text: string): Option<seq<byte>> {
    var s := StripHexPrefix(text);
    if s == "" || |s| % 2 != 0 then None else HexOctets(s)
  }

  method FromHex(text: string) returns (out: Option<seq<byte>>)
    ensures out == ParsedHex(text)
  {
    hide HexOctets, Nibble, StripHexPrefix;
    var s := StripHexPrefix(text);
    if s == "" || |s| % 2 != 0 {
      return None;
    }
    var bytes: seq<byte> := [];
    var i := 0;
    assert s[0..] == s;
    while i < |s|
      invariant 0 <= i <= |s| && i % 2 == 0
      invariant HexOctets(s) == Prefixed(bytes, HexOctets(s[i..]))
    {
      hide ParsedHex;
      HexOctetsStep(s, i, bytes);
      var hi, lo := Nibble(s[i]), Nibble(s[i + 1]);
      if hi.None? || lo.None? {
        return None;
      }
      bytes := bytes + [0x10 * hi.value + lo.value];
      i := i + 2;
    }
    assert s[i..] == "" && bytes + [] == bytes;
    NoOctets();
    return Some(bytes);
  }

  lemma NoOctets()
    ensures HexOctets("") == Some([])
  {
  }

  /** Octets already read, in front of those still to come. */
  function Prefixed(bytes: seq<byte>, rest: Option<seq<byte>>): (r: Option<seq<byte>>)
    ensures bytes == [] ==> r == rest
  {
    match rest
    case None => None
    case Some(more) => assert bytes == [] ==> bytes + more == more; Some(bytes + more)
  }

  lemma HexOctetsStep(s: string, i: nat, bytes: seq<byte>)
    requires i + 2 <= |s| && |s| % 2 == 0 && i % 2 == 0
    ensures Nibble(s[i]).None? || Nibble(s[i + 1]).None? ==> HexOctets(s[i..]).None?
    ensures Nibble(s[i]).Some? && Nibble(s[i + 1]).Some? ==>
      Prefixed(bytes, HexOctets(s[i..]))
      == Prefixed(bytes + [0x10 * Nibble(s[i]).value + Nibble(s[i + 1]).value], HexOctets(s[i + 2..]))
  {
    hide Nibble;
    var t := s[i..];
    assert t[0] == s[i] && t[1] == s[i + 1] && t[2..] == s[i + 2..];
    if Nibble(s[i]).Some? && Nibble(s[i + 1]).Some? && HexOctets(s[i + 2..]).Some? {
      var octet: byte := 0x10 * Nibble(s[i]).value + Nibble(s[i + 1]).value;
      var rest := HexOctets(s[i + 2..]).value;
      assert bytes + ([octet] + rest) == bytes + [octet] + rest;
    }
  }

  lemma DigitRoundTrip(n: int, letters: Letters)
    requires 0 <= n < 16
    ensures Nibble(HexDigit(n, letters)) == Some(n)
  {
  }

  /** Reading the digits of octets gives the octets back. */
  lemma {:induction false} HexRoundTrip(bytes: seq<byte>, letters: Letters)
    ensures HexOctets(HexText(bytes, letters)) == Some(bytes)
  {
    hide HexDigit, Nibble;
    if bytes != [] {
      var s := HexText(bytes, letters);
      assert s[2..] == HexText(bytes[1..], letters);
      HexRoundTrip(bytes[1..], letters);
      DigitRoundTrip(bytes[0] / 0x10, letters);
      DigitRoundTrip(bytes[0] % 0x10, letters);
      assert bytes == [bytes[0]] + bytes[1..];
    }
  }

  /** Different octets never share a text. */
  lemma HexTextInjective(a: seq<byte>, b: seq<byte>, letters: Letters)
    ensures HexText(a, letters) == HexText(b, letters) <==> a == b
  {
    HexRoundTrip(a, letters);
    HexRoundTrip(b, letters);
  }

  function UpperCase(c: char): char {
    if 'a' <= c <= 'f' then (c as int - 'a' as int + 'A' as int) as char else c
  }

  function UpperCased(s: string): (t: string)
    ensures |t| == |s|
    ensures forall i :: 0 <= i < |s| ==> t[i] == UpperCase(s[i])
  {
    seq(|s|, i requires 0 <= i < |s| => UpperCase(s[i]))
  }

  /** Octets read from text are written back as that text in upper case. */
  lemma {:induction false} UpperHexIsCanonical(s: string)
    requires |s| % 2 == 0 && HexOctets(s).Some?
    ensures HexText(HexOctets(s).value, Upper) == UpperCased(s)
  {
    hide HexDigit, Nibble, UpperCase;
    if s != "" {
      UpperHexIsCanonical(s[2..]);
      var hi, lo, rest := Nibble(s[0]).value, Nibble(s[1]).value, HexOctets(s[2..]).value;
      assert HexOctets(s).value == [0x10 * hi + lo] + rest;
      HexTextStep(hi, lo, rest, Upper);
      UpperDigit(s[0]);
      UpperDigit(s[1]);
      assert UpperCased(s) == [UpperCase(s[0]), UpperCase(s[1])] + UpperCased(s[2..]);
    }
  }

  lemma HexTextStep(hi: int, lo: int, rest: seq<byte>, letters: Letters)
    requires 0 <= hi < 16 && 0 <= lo < 16
    ensures HexText([0x10 * hi + lo] + rest, letters)
         == [HexDigit(hi, letters), HexDigit(lo, letters)] + HexText(rest, letters)
  {
  }

  lemma UpperDigit(c: char)
    requires Nibble(c).Some?
    ensures HexDigit(Nibble(c).value, Upper) == UpperCase(c)
  {
  }

  lemma NibbleOfUpperCase(c: char)
    ensures Nibble(UpperCase(c)) == Nibble(c)
  {
  }

  lemma {:induction false} CaseDoesNotMatter(s: string)
    requires |s| % 2 == 0
    ensures HexOctets(UpperCased(s)) == HexOctets(s)
  {
    hide Nibble, UpperCase;
    if s != "" {
      CaseDoesNotMatter(s[2..]);
      assert UpperCased(s)[2..] == UpperCased(s[2..]);
      NibbleOfUpperCase(s[0]);
      NibbleOfUpperCase(s[1]);
    }
  }

  lemma OctetsIff(s: string, bytes: seq<byte>)
    requires |s| % 2 == 0
    ensures HexOctets(s) == Some(bytes) <==> UpperCased(s) == HexText(bytes, Upper)
  {
    hide HexOctets, HexText, UpperCased;
    if HexOctets(s) == Some(bytes) {
      UpperHexIsCanonical(s);
    }
    if UpperCased(s) == HexText(bytes, Upper) {
      HexRoundTrip(bytes, Upper);
      CaseDoesNotMatter(s);
    }
  }

  /** The digits of octets never look like a 0x prefix. */
  lemma HexTextHasNoPrefix(bytes: seq<byte>)
    requires bytes != []
    ensures !HasHexPrefix(HexText(bytes, Upper))
  {
  }

  lemma UpperCaseKeepsPrefix(text: string)
    ensures HasHexPrefix(UpperCased(text)) <==> HasHexPrefix(text)
    ensures HasHexPrefix(text) ==> UpperCased(text) == text[..2] + UpperCased(text[2..])
  {
  }

  /** Exactly these texts are accepted as these octets: perhaps 0x or 0X, then
      the digits of at least one octet, in upper or lower case. */
  lemma ParsedHexIff(text: string, bytes: seq<byte>)
    ensures ParsedHex(text) == Some(bytes) <==>
      && bytes != []
      && (|| UpperCased(text) == HexText(bytes, Upper)
          || UpperCased(text) == "0x" + HexText(bytes, Upper)
          || UpperCased(text) == "0X" + HexText(bytes, Upper))
  {
    hide HexOctets, HexText, UpperCased;
    var s := StripHexPrefix(text);
    UpperCaseKeepsPrefix(text);
    if |s| % 2 == 0 {
      OctetsIff(s, bytes);
    }
    if bytes != [] {
      HexTextHasNoPrefix(bytes);
    }
    if HasHexPrefix(text) {
      assert text[..2] == "0x" || text[..2] == "0X";
      assert (text[..2] + UpperCased(s))[2..] == UpperCased(s);
      assert ("0x" + HexText(bytes, Upper))[2..] == HexText(bytes, Upper);
      assert ("0X" + HexText(bytes, Upper))[2..] == HexText(bytes, Upper);
    } else {
      assert HasHexPrefix("0x" + HexText(bytes, Upper)) && HasHexPrefix("0X" + HexText(bytes, Upper));
    }
    LengthOfUpperCased(s);
  }

  lemma LengthOfUpperCased(s: string)
    ensures |UpperCased(s)| == |s|
  {
  }
}
