/** Decimal rendering of integers, as PHP's string conversion writes them. */
module Text {
  import opened Wrappers

  predicate IsDigit(c: char)
  {
    '0' <= c <= '9'
  }

  function DigitChar(d: nat): (c: char)
    requires d < 10
    ensures IsDigit(c)
  {
    (48 + d) as char
  }

  function DigitValue(c: char): (d: nat)
    requires IsDigit(c)
    ensures d < 10
  {
    c as int - 48
  }

  /** The decimal digits of `n`, most significant first, with no leading
      zero. */
  function Decimal(n: nat): (s: string)
    ensures |s| >= 1
    ensures forall i :: 0 <= i < |s| ==> IsDigit(s[i])
    ensures |s| > 1 ==> s[0] != '0'
    decreases n
  {
    if n < 10 then [DigitChar(n)] else Decimal(n / 10) + [DigitChar(n % 10)]
  }

  /** Reads a non-empty run of decimal digits back as a number. */
  function ParseDecimal(s: string): Option<nat>
  {
    if |s| == 0 || !IsDigit(s[|s| - 1]) then None
    else if |s| == 1 then Some(DigitValue(s[0]))
    else match ParseDecimal(s[..|s| - 1])
      case None => None
      case Some(v) => Some(v * 10 + DigitValue(s[|s| - 1]))
  }

  /** Parsing undoes rendering: the decimal text of `n` names `n`. */
  lemma {:induction false} ParseDecimalInvertsDecimal(n: nat)
    ensures ParseDecimal(Decimal(n)) == Some(n)
    decreases n
  {
    if n >= 10 {
      var s := Decimal(n);
      assert s == Decimal(n / 10) + [DigitChar(n % 10)];
      assert s[..|s| - 1] == Decimal(n / 10);
      ParseDecimalInvertsDecimal(n / 10);
    }
  }

  /** An integer's decimal text in canonical form, with a leading minus
      sign when negative: digits only after the sign, and no leading zero. */
  function IntToString(i: int): (s: string)
    ensures i >= 0 ==> ParseDecimal(s) == Some(i)
    ensures i >= 0 ==> (forall k :: 0 <= k < |s| ==> IsDigit(s[k])) && (|s| > 1 ==> s[0] != '0')
    ensures i < 0 ==> |s| >= 2 && s[0] == '-' && ParseDecimal(s[1..]) == Some(-i)
    ensures i < 0 ==> (forall k :: 1 <= k < |s| ==> IsDigit(s[k])) && s[1] != '0'
  {
    if i < 0 then
      ParseDecimalInvertsDecimal(-i);
      "-" + Decimal(-i)
    else
      ParseDecimalInvertsDecimal(i);
      Decimal(i)
  }

  /** Distinct integers render to distinct text. */
  lemma IntToStringInjective(i: int, j: int)
    requires IntToString(i) == IntToString(j)
    ensures i == j
  {
    var s := IntToString(i);
    if i >= 0 && j >= 0 {
      assert ParseDecimal(s) == Some(i) && ParseDecimal(s) == Some(j);
    } else if i < 0 && j < 0 {
      assert ParseDecimal(s[1..]) == Some(-i) && ParseDecimal(s[1..]) == Some(-j);
    }
  }

  /** Text framed by the same head and tail is determined by the frame. */
  lemma SameFrame(head: string, a: string, b: string, tail: string)
    requires head + a + tail == head + b + tail
    ensures a == b
  {
    var x := head + a + tail;
    assert a == x[|head|..|head| + |a|];
    assert b == x[|head|..|head| + |b|];
  }

  /** Two joins with suffixes of one length agree piecewise. */
  lemma SplitAtSuffix(x1: string, u1: string, x2: string, u2: string)
    requires x1 + u1 == x2 + u2 && |u1| == |u2|
    ensures x1 == x2 && u1 == u2
  {
    var x := x1 + u1;
    assert x1 == x[..|x1|] && x2 == x[..|x2|];
    assert u1 == x[|x1|..] && u2 == x[|x2|..];
  }
}
