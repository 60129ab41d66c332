/**
 Decimal printing and reading of Go's 64-bit int, as `strconv.Itoa`, `fmt`'s `%d` and
 `strconv.Atoi` do it.  The annotations of the IPUpdate controller and the pool names of the
 IPPoolImport controller are built from these strings.
 */
module Decimal {
  import opened Wrappers

  const MIN_INT := -0x8000_0000_0000_0000
  const MAX_INT := 0x7FFF_FFFF_FFFF_FFFF

  predicate IsDigit(c: char) { '0' <= c <= '9' }

  predicate AllDigits(s: string) { forall i | 0 <= i < |s| :: IsDigit(s[i]) }

  function Digit(d: nat): (c: char)
    requires d < 10
    ensures IsDigit(c) && c as int == '0' as int + d
  {
    ('0' as int + d) as char
  }

  function PrintNat(n: nat): (s: string)
    ensures |s| > 0 && AllDigits(s)
  {
    if n < 10 then [Digit(n)] else PrintNat(n / 10) + [Digit(n % 10)]
  }

  function ParseNat(s: string): nat
    requires AllDigits(s)
  {
    if s == "" then 0 else ParseNat(s[..|s| - 1]) * 10 + (s[|s| - 1] as int - '0' as int)
  }

  function Itoa(n: int): string {
    if n < 0 then "-" + PrintNat(-n) else PrintNat(n)
  }

  /** `strconv.Atoi`: an optional sign, at least one digit, nothing else, and no 64-bit overflow. */
  function Atoi(s: string): Option<int> {
    var signed := |s| > 0 && (s[0] == '-' || s[0] == '+');
    var digits := if signed then s[1..] else s;
    if digits == "" || !AllDigits(digits) then None
    else
      var v: int := if signed && s[0] == '-' then 0 - ParseNat(digits) else ParseNat(digits);
      if MIN_INT <= v <= MAX_INT then Some(v) else None
  }

  lemma {:induction false} ParsePrint(n: nat)
    ensures ParseNat(PrintNat(n)) == n
  {
    if n >= 10 {
      ParsePrint(n / 10);
      var s := PrintNat(n);
      assert s[..|s| - 1] == PrintNat(n / 10);
    } else {
      assert PrintNat(n)[..0] == "";
    }
  }

  function Power10(k: nat): nat { if k == 0 then 1 else 10 * Power10(k - 1) }

  /** The first digit counts its power of ten. */
  lemma {:induction false} LeadingDigit(c: char, s: string)
    requires IsDigit(c) && AllDigits(s)
    ensures AllDigits([c] + s) && ParseNat([c] + s) == (c as int - '0' as int) * Power10(|s|) + ParseNat(s)
  {
    if s == "" {
      assert ([c] + s)[..0] == "";
    } else {
      LeadingDigit(c, s[..|s| - 1]);
      assert ([c] + s)[..|s|] == [c] + s[..|s| - 1];
    }
  }

  lemma PrintMore(n: nat, d: nat)
    requires n > 0 && d < 10
    ensures PrintNat(10 * n + d) == PrintNat(n) + [Digit(d)]
  {
    assert (10 * n + d) / 10 == n && (10 * n + d) % 10 == d;
  }

  /** The printed text is the only one without a leading zero that reads as the number. */
  lemma {:induction false} PrintParse(s: string)
    requires s != "" && AllDigits(s) && (s[0] != '0' || |s| == 1)
    ensures PrintNat(ParseNat(s)) == s && (s[0] != '0' ==> ParseNat(s) > 0)
  {
    var front, c := s[..|s| - 1], s[|s| - 1];
    var d := c as int - '0' as int;
    assert s == front + [c] && c == Digit(d) && ParseNat(s) == 10 * ParseNat(front) + d;
    hide ParseNat, PrintNat;
    if front == "" {
      OneDigit(d);
    } else {
      PrintParse(front);
      PrintMore(ParseNat(front), d);
    }
  }

  lemma OneDigit(d: nat)
    requires d < 10
    ensures PrintNat(d) == [Digit(d)] && ParseNat("") == 0
  {
  }

  /** What is read as an int: digits with a sign or without, if the value is one of 64 bits. */
  lemma AtoiMeaning(d: string)
    requires d != "" && AllDigits(d)
    ensures var n: int := ParseNat(d);
            && Atoi(d) == Atoi("+" + d) == (if n <= MAX_INT then Some(n) else None)
            && Atoi("-" + d) == if MIN_INT <= -n then Some(-n) else None
  {
    assert IsDigit(d[0]);
    assert ("+" + d)[1..] == d && ("-" + d)[1..] == d;
  }

  /** And nothing else is. */
  lemma AtoiRejects(s: string)
    requires Atoi(s).Some?
    ensures exists d :: d != "" && AllDigits(d) && s in {d, "+" + d, "-" + d}
  {
    if AllDigits(s) {
    } else {
      assert s == [s[0]] + s[1..];
      assert s[1..] != "" && AllDigits(s[1..]) && s in {s[1..], "+" + s[1..], "-" + s[1..]};
    }
  }

  /** Reading back a printed int gives the int: annotations written with Itoa parse to the same id. */
  lemma AtoiItoa(n: int)
    requires MIN_INT <= n <= MAX_INT
    ensures Atoi(Itoa(n)) == Some(n)
  {
    var digits := PrintNat(if n < 0 then -n else n);
    ParsePrint(if n < 0 then -n else n);
    if n < 0 {
      assert Itoa(n)[0] == '-' && Itoa(n)[1..] == digits;
    } else {
      assert IsDigit(digits[0]);
      assert Itoa(n) == digits;
    }
  }
}
