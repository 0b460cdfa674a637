/** The four functions of Go's package strconv that the conversion table
    uses, on a 64-bit platform: Itoa, Atoi, FormatBool and ParseBool. */
module Strconv {
  import opened Reflect

  predicate IsDigit(c: char)
  {
    '0' <= c <= '9'
  }

  predicate AllDigits(s: string)
  {
    forall i :: 0 <= i < |s| ==> IsDigit(s[i])
  }

  function DigitChar(d: nat): (c: char)
    requires d < 10
    ensures IsDigit(c)
  {
    (('0' as int) + d) as char
  }

  function DigitValue(c: char): (d: nat)
    requires IsDigit(c)
    ensures d < 10 && DigitChar(d) == c
  {
    (c as int) - ('0' as int)
  }

  /** The decimal digits of n, most significant first, without leading zeros. */
  function NatDigits(n: nat): (r: string)
    ensures |r| >= 1 && AllDigits(r)
    ensures |r| > 1 ==> r[0] != '0'
    ensures n > 0 ==> r[0] != '0'
  {
    if n < 10 then [DigitChar(n)] else NatDigits(n / 10) + [DigitChar(n % 10)]
  }

  /** The number a non-empty string of decimal digits denotes. */
  function ParseDigits(s: string): nat
    requires AllDigits(s)
  {
    if |s| == 0 then 0 else 10 * ParseDigits(s[..|s| - 1]) + DigitValue(s[|s| - 1])
  }

  lemma {:induction false} ParseNatDigits(n: nat)
    ensures ParseDigits(NatDigits(n)) == n
  {
    var r := NatDigits(n);
    if n >= 10 {
      ParseNatDigits(n / 10);
      assert r[..|r| - 1] == NatDigits(n / 10);
    }
  }

  /** strconv.Itoa: the canonical decimal rendering (no leading zeros),
      with a leading '-' when negative. */
  function Itoa(x: int): (r: string)
    ensures |r| >= 1
    ensures x < 0 <==> r[0] == '-'
    ensures x >= 0 ==> AllDigits(r) && ParseDigits(r) == x
    ensures x >= 0 && |r| > 1 ==> r[0] != '0'
    ensures x < 0 ==> |r| >= 2 && AllDigits(r[1..]) && ParseDigits(r[1..]) == -x
    ensures x < 0 ==> r[1] != '0'
  {
    if x < 0 then
      var d := NatDigits(-x);
      ParseNatDigits(-x);
      assert ("-" + d)[1..] == d;
      "-" + d
    else
      ParseNatDigits(x);
      NatDigits(x)
  }

  /** strconv.Atoi: an optional sign and at least one decimal digit, whose
      value must fit in a (64-bit) int; anything else is an error (None). */
  function Atoi(s: string): (r: Option<int>)
    ensures r.Some? ==> InRange(Int, r.value)
  {
    if |s| == 0 then None
    else
      var body := if s[0] == '-' || s[0] == '+' then s[1..] else s;
      if |body| == 0 || !AllDigits(body) then None
      else
        var n: int := if s[0] == '-' then -(ParseDigits(body) as int) else ParseDigits(body);
        if InRange(Int, n) then Some(n) else None
  }

  /** Rendering an int and parsing it back gives the same int. */
  lemma AtoiItoa(x: int)
    requires InRange(Int, x)
    ensures Atoi(Itoa(x)) == Some(x)
  {
    var r := Itoa(x);
    if x < 0 {
      assert r[1..] == NatDigits(-x);
      ParseNatDigits(-x);
    } else {
      assert r[0] != '+';
      ParseNatDigits(x);
    }
  }

  /** Leading zeros and a '+' sign are accepted by Atoi. */
  lemma AtoiAcceptsSignAndLeadingZeros()
    ensures Atoi("+007") == Some(7)
    ensures Atoi("-42") == Some(-42)
    ensures Atoi("") == None && Atoi("+") == None && Atoi("4a") == None
  {
    assert "+007"[1..] == "007";
    assert "007"[..2] == "00" && "00"[..1] == "0" && "0"[..0] == "";
    assert ParseDigits("0") == 0 && ParseDigits("00") == 0 && ParseDigits("007") == 7;
    assert "-42"[1..] == "42" && "42"[..1] == "4";
    assert !AllDigits("4a") by { assert !IsDigit("4a"[1]); }
  }

  /** Atoi accepts an unsigned digit string exactly when its value is at
      most 2^63 - 1, the largest 64-bit int. */
  lemma AtoiRangeUnsigned(s: string)
    requires |s| >= 1 && AllDigits(s)
    ensures Atoi(s) == if ParseDigits(s) < 0x8000_0000_0000_0000 then Some(ParseDigits(s) as int) else None
  {
    assert s[0] != '-' && s[0] != '+';
  }

  /** A '+' sign in front of a digit string changes nothing. */
  lemma AtoiRangePlus(s: string)
    requires |s| >= 1 && AllDigits(s)
    ensures Atoi("+" + s) == Atoi(s)
  {
    var t := "+" + s;
    assert t[0] == '+' && t[1..] == s;
    assert s[0] != '-' && s[0] != '+';
  }

  /** Everything but an optional sign followed by at least one digit is
      rejected: the empty text, a bare sign, a first character that is
      neither sign nor digit, and a non-digit anywhere after the first
      character. */
  lemma AtoiRejects(s: string)
    ensures |s| == 0 ==> Atoi(s) == None
    ensures s == "+" || s == "-" ==> Atoi(s) == None
    ensures |s| > 0 && !IsDigit(s[0]) && s[0] != '+' && s[0] != '-' ==> Atoi(s) == None
    ensures (exists i :: 1 <= i < |s| && !IsDigit(s[i])) ==> Atoi(s) == None
  {
    if s == "+" || s == "-" {
      assert s[1..] == "";
    }
    if |s| > 0 && !IsDigit(s[0]) && s[0] != '+' && s[0] != '-' {
      assert !AllDigits(s);
    }
    if i :| 1 <= i < |s| && !IsDigit(s[i]) {
      if s[0] == '-' || s[0] == '+' {
        assert s[1..][i - 1] == s[i];
        assert !AllDigits(s[1..]);
      } else {
        assert !AllDigits(s);
      }
    }
  }

  /** Atoi accepts a negated digit string exactly when its value is at
      least -2^63, the smallest 64-bit int. */
  lemma AtoiRangeNegative(s: string)
    requires |s| >= 1 && AllDigits(s)
    ensures Atoi("-" + s) == if ParseDigits(s) <= 0x8000_0000_0000_0000 then Some(-(ParseDigits(s) as int)) else None
  {
    var t := "-" + s;
    assert t[0] == '-' && t[1..] == s;
    var n: int := -(ParseDigits(s) as int);
    assert InRange(Int, n) <==> ParseDigits(s) <= 0x8000_0000_0000_0000;
  }

  /** strconv.FormatBool: "true" or "false", which ParseBool reads back. */
  function FormatBool(b: bool): (r: string)
    ensures ParseBool(r) == Some(b)
  {
    if b then "true" else "false"
  }

  /** strconv.ParseBool: the twelve accepted spellings; anything else is an error. */
  function ParseBool(s: string): (r: Option<bool>)
    ensures r.Some? ==> |s| in {1, 4, 5}
    ensures r.Some? ==> (r.value <==> s[0] == '1' || s[0] == 't' || s[0] == 'T')
    ensures s == "1" || s == "0" ==> r == Some(s == "1")
  {
    if s in {"1", "t", "T", "TRUE", "true", "True"} then Some(true)
    else if s in {"0", "f", "F", "FALSE", "false", "False"} then Some(false)
    else None
  }
}
