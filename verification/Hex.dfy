/**
 Base16 text (section 8 of RFC 4648) as the service prints it, always in lower case, and as the
 constitution reads it back.
*/
module Hex {
  import opened Outcomes

  newtype byte = b: int | 0 <= b < 256

  function HexDigit(n: int): char
    requires 0 <= n < 16
  {
    if n < 10 then '0' + n as char else 'a' + (n - 10) as char
  }

  /** The value of a hexadecimal digit in either case. */
  function DigitValue(c: char): Option<int> {
    if '0' <= c <= '9' then Some(c as int - '0' as int)
    else if 'a' <= c <= 'f' then Some(c as int - 'a' as int + 10)
    else if 'A' <= c <= 'F' then Some(c as int - 'A' as int + 10)
    else None
  }

  /** `n.toString(16).padStart(2, "0")` for every byte, joined. */
  function ToHex(bytes: seq<byte>): (s: string)
    ensures |s| == 2 * |bytes|
  {
    if bytes == [] then ""
    else [HexDigit(bytes[0] as int / 16), HexDigit(bytes[0] as int % 16)] + ToHex(bytes[1..])
  }

  /** The characters `\s` stands for in a regular expression. */
  predicate IsSpace(c: char) {
    || '\t' <= c <= '\r' || c == ' ' || c == '\U{A0}' || c == '\U{1680}'
    || '\U{2000}' <= c <= '\U{200A}' || c == '\U{2028}' || c == '\U{2029}'
    || c == '\U{202F}' || c == '\U{205F}' || c == '\U{3000}' || c == '\U{FEFF}'
  }

  /** What the octet check refuses: letters from g on, and white space. */
  predicate IsRefused(c: char) {
    'G' <= c <= 'Z' || 'g' <= c <= 'z' || IsSpace(c)
  }

  /**
   `parseInt` in base 16 of two characters that passed the check, stored in a `Uint8Array`: a sign
   is read, reading stops at the first non-digit, and no digit at all gives zero.
  */
  function ParseOctet(hi: char, lo: char): byte {
    match (DigitValue(hi), DigitValue(lo))
    case (Some(h), Some(l)) => (h * 16 + l) as byte
    case (Some(h), None) => h as byte
    case (None, Some(l)) => if hi == '+' then l as byte else if hi == '-' && l > 0 then (256 - l) as byte else 0
    case (None, None) => 0
  }

  /** What `hexStrToBuf` computes; `None` where it throws. */
  function FromHex(s: string): (r: Option<seq<byte>>)
    ensures r.Some? ==> |s| == 2 * |r.value|
  {
    if s == "" then Some([])
    else if |s| == 1 || IsRefused(s[0]) || IsRefused(s[1]) then None
    else
      match FromHex(s[2..])
      case None => None
      case Some(rest) => Some([ParseOctet(s[0], s[1])] + rest)
  }

  function Prepend(front: seq<byte>, r: Option<seq<byte>>): Option<seq<byte>> {
    match r case None => None case Some(rest) => Some(front + rest)
  }

  lemma PrependNothing(r: Option<seq<byte>>)
    ensures Prepend([], r) == r
  {
    if r.Some? { assert [] + r.value == r.value; }
  }

  lemma PrependTwice(front: seq<byte>, b: byte, r: Option<seq<byte>>)
    ensures Prepend(front, Prepend([b], r)) == Prepend(front + [b], r)
  {
    if r.Some? {
      assert front + ([b] + r.value) == front + [b] + r.value;
    }
  }

  lemma FromHexUnfolds(s: string)
    requires |s| >= 2 && !IsRefused(s[0]) && !IsRefused(s[1])
    ensures FromHex(s) == Prepend([ParseOctet(s[0], s[1])], FromHex(s[2..]))
  {}

  /** The loop of the constitution, octet by octet. */
  method HexStrToBuf(hexStr: string) returns (r: Option<seq<byte>>)
    ensures r == FromHex(hexStr)
  {
    var result: seq<byte> := [];
    var i := 0;
    assert hexStr[0..] == hexStr;
    PrependNothing(FromHex(hexStr));
    while i < |hexStr|
      invariant 0 <= i <= |hexStr|
      invariant FromHex(hexStr) == Prepend(result, FromHex(hexStr[i..]))
      decreases |hexStr| - i
    {
      ghost var tail := hexStr[i..];
      var octet := hexStr[i..if i + 2 <= |hexStr| then i + 2 else |hexStr|];
      if |octet| != 2 || IsRefused(octet[0]) || IsRefused(octet[1]) {
        return None;
      }
      assert tail[2..] == hexStr[i + 2..];
      ghost var before := result;
      result := result + [ParseOctet(octet[0], octet[1])];
      FromHexUnfolds(tail);
      PrependTwice(before, ParseOctet(octet[0], octet[1]), FromHex(tail[2..]));
      i := i + 2;
    }
    assert hexStr[i..] == "" && result + [] == result;
    return Some(result);
  }

  /** Text that `ToHex` can print. */
  predicate IsLowerHex(s: string) {
    |s| % 2 == 0 && forall i | 0 <= i < |s| :: '0' <= s[i] <= '9' || 'a' <= s[i] <= 'f'
  }

  lemma OctetRoundTrip(b: byte)
    ensures var hi, lo := HexDigit(b as int / 16), HexDigit(b as int % 16);
            !IsRefused(hi) && !IsRefused(lo) && ParseOctet(hi, lo) == b
  {
    var h, l := b as int / 16, b as int % 16;
    assert DigitValue(HexDigit(h)) == Some(h) && DigitValue(HexDigit(l)) == Some(l);
    assert h * 16 + l == b as int;
  }

  /** Reading back what was printed gives the bytes again, for every byte string. */
  lemma {:induction false} ReadingUndoesPrinting(bytes: seq<byte>)
    ensures FromHex(ToHex(bytes)) == Some(bytes)
  {
    if bytes == [] {
    } else {
      ReadingUndoesPrinting(bytes[1..]);
      OctetRoundTrip(bytes[0]);
      assert ToHex(bytes)[2..] == ToHex(bytes[1..]);
      assert [bytes[0]] + bytes[1..] == bytes;
    }
  }

  lemma OctetPrintsBackIff(hi: char, lo: char)
    requires !IsRefused(hi) && !IsRefused(lo)
    ensures var b := ParseOctet(hi, lo) as int;
            HexDigit(b / 16) == hi && HexDigit(b % 16) == lo <==> IsLowerHex([hi, lo])
  {
    var b := ParseOctet(hi, lo) as int;
    assert forall i | 0 <= i < 16 :: '0' <= HexDigit(i) <= '9' || 'a' <= HexDigit(i) <= 'f';
    if IsLowerHex([hi, lo]) {
      assert [hi, lo][0] == hi && [hi, lo][1] == lo;
      var h, l := DigitValue(hi).value, DigitValue(lo).value;
      assert b == h * 16 + l && 0 <= l < 16 && b / 16 == h && b % 16 == l;
    }
  }

  lemma LowerHexSplit(s: string)
    requires |s| >= 2
    ensures IsLowerHex(s) <==> IsLowerHex([s[0], s[1]]) && IsLowerHex(s[2..])
  {
    assert s == [s[0], s[1]] + s[2..];
    if IsLowerHex([s[0], s[1]]) {
      assert [s[0], s[1]][0] == s[0] && [s[0], s[1]][1] == s[1];
    }
  }

  lemma PrintedSplit(b: byte, rest: seq<byte>, s: string)
    requires |s| >= 2
    ensures ToHex([b] + rest) == s
            <==> HexDigit(b as int / 16) == s[0] && HexDigit(b as int % 16) == s[1] && ToHex(rest) == s[2..]
  {
    assert ([b] + rest)[1..] == rest;
    var printed := ToHex([b] + rest);
    assert printed[2..] == ToHex(rest);
    assert s == [s[0], s[1]] + s[2..];
  }

  /**
   The reader takes more than the printer writes; printing gives a text back exactly when the
   text is an even number of lower-case digits.
  */
  lemma {:induction false} PrintingUndoesReadingIff(s: string)
    ensures (FromHex(s).Some? && ToHex(FromHex(s).value) == s) <==> IsLowerHex(s)
  {
    if |s| < 2 {
    } else {
      PrintingUndoesReadingIff(s[2..]);
      LowerHexSplit(s);
      if IsRefused(s[0]) || IsRefused(s[1]) {
        assert [s[0], s[1]][0] == s[0] && [s[0], s[1]][1] == s[1];
      } else {
        OctetPrintsBackIff(s[0], s[1]);
        if FromHex(s).Some? {
          PrintedSplit(ParseOctet(s[0], s[1]), FromHex(s[2..]).value, s);
        }
      }
    }
  }

  /** `startsWith` on printed text decides the prefix relation on the bytes themselves. */
  lemma {:induction false} PrefixIffPrintedPrefix(a: seq<byte>, b: seq<byte>)
    ensures ToHex(a) <= ToHex(b) <==> a <= b
  {
    if a == [] {
    } else if b == [] {
    } else {
      PrefixIffPrintedPrefix(a[1..], b[1..]);
      var x, y := ToHex(a), ToHex(b);
      assert x[2..] == ToHex(a[1..]) && y[2..] == ToHex(b[1..]);
      OctetRoundTrip(a[0]);
      OctetRoundTrip(b[0]);
      assert x[0] == y[0] && x[1] == y[1] <==> a[0] == b[0];
      assert x <= y <==> x[0] == y[0] && x[1] == y[1] && x[2..] <= y[2..] by {
        if x <= y { assert y[2..|x|] == x[2..]; }
        if x[0] == y[0] && x[1] == y[1] && x[2..] <= y[2..] {
          assert x == [x[0], x[1]] + x[2..] && y == [y[0], y[1]] + y[2..];
        }
      }
      assert a <= b <==> a[0] == b[0] && a[1..] <= b[1..] by {
        assert a == [a[0]] + a[1..] && b == [b[0]] + b[1..];
      }
    }
  }

  /** Reading throws exactly at a text of odd length, or one with a letter from g on or white space in it. */
  lemma {:induction false} ThrowsIff(s: string)
    ensures FromHex(s).None? <==> |s| % 2 == 1 || exists i :: 0 <= i < |s| && IsRefused(s[i])
  {
    if |s| < 2 {
    } else {
      ThrowsIff(s[2..]);
      if i :| 0 <= i < |s[2..]| && IsRefused(s[2..][i]) { assert IsRefused(s[i + 2]); }
      if i :| 0 <= i < |s| && IsRefused(s[i]) {
        assert i < 2 || s[2..][i - 2] == s[i];
      }
    }
  }

  /**
   What two characters read as when they are not both digits: a digit alone if it comes first or after a sign,
   taken modulo 256 as a byte, and else zero.
  */
  lemma OddOctetReadsAs(hi: char, lo: char)
    requires !IsRefused(hi) && !IsRefused(lo) && !(DigitValue(hi).Some? && DigitValue(lo).Some?)
    ensures FromHex([hi, lo]) == Some([ParseOctet(hi, lo)])
    ensures var b := ParseOctet(hi, lo) as int;
            && (DigitValue(hi).Some? ==> b == DigitValue(hi).value)
            && (hi == '+' && DigitValue(lo).Some? ==> b == DigitValue(lo).value)
            && (hi == '-' && DigitValue(lo).Some? ==> (b + DigitValue(lo).value) % 256 == 0)
            && (DigitValue(hi).None? && !(hi in "+-" && DigitValue(lo).Some?) ==> b == 0)
  {
    var s := [hi, lo];
    assert s[0] == hi && s[1] == lo && s[2..] == "";
    assert FromHex(s[2..]) == Some([]) && [ParseOctet(hi, lo)] + [] == [ParseOctet(hi, lo)];
  }
}
