/**
 * Decimal text of integers: Go's `fmt` verb `%d` for any integer, and
 * `strconv.Atoi`, used to name and to parse bucket and index files.
 */
module Decimal {
  import opened Wrappers

  predicate IsDigit(c: char) {
    '0' <= c <= '9'
  }

  predicate AllDigits(s: string) {
    forall i :: 0 <= i < |s| ==> IsDigit(s[i])
  }

  function DigitChar(d: nat): (c: char)
    requires d < 10
    ensures IsDigit(c)
  {
    "0123456789"[d]
  }

  /** The value of a string of decimal digits, the last digit least significant. */
  function DigitsValue(s: string): nat
    requires AllDigits(s)
  {
    if s == [] then 0
    else DigitsValue(s[..|s| - 1]) * 10 + (s[|s| - 1] - '0') as nat
  }

  /** `fmt.Sprintf("%d", n)` for `n >= 0`: digits without leading zeros. */
  function Itoa(n: nat): (s: string)
    ensures |s| > 0 && AllDigits(s)
    ensures |s| > 1 ==> s[0] != '0'
  {
    if n < 10 then [DigitChar(n)] else Itoa(n / 10) + [DigitChar(n % 10)]
  }

  /**
   * `strconv.Atoi`: an optional `+` or `-` sign followed by at least one
   * decimal digit; anything else is a syntax error (`None`).
   */
  function Atoi(s: string): (r: Option<int>)
    ensures r.Some? <==> |s| > 0 && var d := if s[0] in "+-" then s[1..] else s; |d| > 0 && AllDigits(d)
  {
    if |s| == 0 then None
    else
      var d := if s[0] in "+-" then s[1..] else s;
      if |d| == 0 || !AllDigits(d) then None
      else
        var v: int := DigitsValue(d);
        Some(if s[0] == '-' then -v else v)
  }

  /** What `id, _ := strconv.Atoi(name)` leaves in `id`: 0 on a syntax error. */
  function AtoiOrZero(s: string): int {
    match Atoi(s)
    case Some(n) => n
    case None => 0
  }

  lemma {:induction false} DigitsValueOfItoa(n: nat)
    ensures DigitsValue(Itoa(n)) == n
  {
    if n >= 10 {
      var s := Itoa(n);
      assert s[..|s| - 1] == Itoa(n / 10);
      DigitsValueOfItoa(n / 10);
    }
  }

  /** Parsing the printed id gives the id back. */
  lemma {:induction false} AtoiOfItoa(n: nat)
    ensures Atoi(Itoa(n)) == Some(n)
  {
    DigitsValueOfItoa(n);
  }

  /** `fmt`'s `%d` for any integer: a minus sign when negative, then the digits. */
  function Text(n: int): (s: string)
    ensures |s| > 0
  {
    if n < 0 then "-" + Itoa(-n) else Itoa(n)
  }

  /** `%d` prints only a minus sign and digits. */
  lemma {:induction false} TextChars(n: int)
    ensures forall i :: 0 <= i < |Text(n)| ==> Text(n)[i] == '-' || IsDigit(Text(n)[i])
  {
    if n < 0 {
      var d := Itoa(-n);
      assert Text(n) == "-" + d;
      forall i | 0 <= i < |Text(n)|
        ensures Text(n)[i] == '-' || IsDigit(Text(n)[i])
      {
        if i > 0 {
          assert Text(n)[i] == d[i - 1];
        }
      }
    }
  }

  /** `strconv.Atoi` reads back what `%d` printed, so different numbers print differently. */
  lemma {:induction false} AtoiOfText(n: int)
    ensures Atoi(Text(n)) == Some(n)
  {
    if n < 0 {
      AtoiOfNegativeText(-n);
    } else {
      AtoiOfItoa(n);
    }
  }

  lemma {:induction false} AtoiOfNegativeText(m: nat)
    requires m > 0
    ensures Atoi(Text(-(m as int))) == Some(-(m as int))
  {
    var d := Itoa(m);
    assert Text(-(m as int)) == "-" + d;
    DigitsValueOfItoa(m);
    SignedDigits(d);
  }

  /** A single digit parses as its value. */
  lemma {:induction false} OneDigit(c: char)
    requires IsDigit(c)
    ensures Atoi([c]) == Some((c - '0') as int)
  {
    assert "+-"[0] == '+' && "+-"[1] == '-';
    assert [c][0] !in "+-";
    assert AllDigits([c]);
    assert [c][..0] == [];
    assert DigitsValue([c]) == (c - '0') as int;
  }

  /** Two digits parse as ten times the first plus the second. */
  lemma {:induction false} TwoDigits(c: char, d: char)
    requires IsDigit(c) && IsDigit(d)
    ensures Atoi([c, d]) == Some((c - '0') as int * 10 + (d - '0') as int)
  {
    assert [c, d][..1] == [c] && [c][..0] == [];
    assert DigitsValue([c]) == (c - '0') as int;
    assert DigitsValue([c, d]) == (c - '0') as int * 10 + (d - '0') as int;
  }

  /** A minus sign before digits parses as the negated value of the digits. */
  lemma {:induction false} SignedDigits(d: string)
    requires |d| > 0 && AllDigits(d)
    ensures Atoi("-" + d) == Some(-(DigitsValue(d) as int))
  {
    var s := "-" + d;
    assert s[0] == '-' && s[0] in "+-";
    assert s[1..] == d;
  }
}
