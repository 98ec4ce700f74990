/** Key identifiers: the digest of the public key, an underscore and the decimal key number. */
module Kids {

  /** How a template literal prints a natural number. */
  function Decimal(n: nat): (s: string)
    ensures |s| > 0
    ensures forall i | 0 <= i < |s| :: '0' <= s[i] <= '9'
  {
    var digit := '0' + (n % 10) as char;
    if n < 10 then [digit] else Decimal(n / 10) + [digit]
  }

  function Kid(hash: string, id: nat): string {
    hash + "_" + Decimal(id)
  }

  lemma {:induction false} DecimalInjective(m: nat, n: nat)
    requires Decimal(m) == Decimal(n)
    ensures m == n
  {
    var a, b := Decimal(m), Decimal(n);
    assert a[|a| - 1] == b[|b| - 1];
    if m < 10 || n < 10 {
    } else {
      assert a[..|a| - 1] == Decimal(m / 10) && b[..|b| - 1] == Decimal(n / 10);
      DecimalInjective(m / 10, n / 10);
    }
  }

  lemma SeparatorSplits(kid: string, h1: string, d1: string, h2: string, d2: string)
    requires kid == h1 + "_" + d1 && kid == h2 + "_" + d2
    requires '_' !in d1 && '_' !in d2
    ensures h1 == h2 && d1 == d2
  {
    assert kid[|h1|] == '_' && kid[|h2|] == '_';
    assert |h1| == |h2|;
    assert h1 == kid[..|h1|] && h2 == kid[..|h2|];
    assert d1 == kid[|h1| + 1..] && d2 == kid[|h2| + 1..];
  }

  /**
   A kid determines both its parts. Nothing is asked of the digest text: base64url (section 5 of
   RFC 4648) has `_` in its alphabet, but the last underscore of a kid is always the separator.
  */
  lemma KidDeterminesParts(h1: string, n1: nat, h2: string, n2: nat)
    ensures Kid(h1, n1) == Kid(h2, n2) <==> h1 == h2 && n1 == n2
  {
    if Kid(h1, n1) == Kid(h2, n2) {
      var kid, d1, d2 := Kid(h1, n1), Decimal(n1), Decimal(n2);
      SeparatorSplits(kid, h1, d1, h2, d2);
      DecimalInjective(n1, n2);
    }
  }

  /** The number that decimal digits stand for. */
  function Value(digits: string): int {
    if digits == "" then 0
    else Value(digits[..|digits| - 1]) * 10 + (digits[|digits| - 1] as int - '0' as int)
  }

  /** A number is written in decimal digits that stand for it, without a zero in front. */
  lemma {:induction false} DecimalStandsFor(n: nat)
    ensures Value(Decimal(n)) == n && (Decimal(n)[0] == '0' ==> n == 0)
  {
    var s := Decimal(n);
    if n < 10 {
      assert s[..|s| - 1] == "";
    } else {
      DecimalStandsFor(n / 10);
      assert s[..|s| - 1] == Decimal(n / 10);
    }
  }
}
