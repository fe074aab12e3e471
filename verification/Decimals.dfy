/** Decimal numbers as the standard library prints and parses unsigned integers. */
module Decimals {
  import opened Wrappers

  predicate IsDigit(c: char) { '0' <= c <= '9' }

  predicate Digits(s: string) { forall i :: 0 <= i < |s| ==> IsDigit(s[i]) }

  function DigitOf(n: nat): char
    requires n < 10
  {
    n as char + '0'
  }

  function Show(n: nat): string {
    if n < 10 then [DigitOf(n)] else Show(n / 10) + [DigitOf(n % 10)]
  }

  function ValueOf(s: string): nat
    requires Digits(s)
  {
    if s == [] then 0 else ValueOf(s[..|s| - 1]) * 10 + (s[|s| - 1] - '0') as nat
  }

  /** Parses an unsigned integer below the given bound; a plus sign is allowed. */
  function Parse(s: string, bound: nat): Option<nat> {
    var digits := if s != [] && s[0] == '+' then s[1..] else s;
    if digits != [] && Digits(digits) && ValueOf(digits) < bound then Some(ValueOf(digits)) else None
  }

  lemma {:induction false} ShowDigits(n: nat)
    ensures Show(n) != [] && Digits(Show(n)) && ValueOf(Show(n)) == n
  {
    if n < 10 {
      assert Show(n)[..0] == [];
    } else {
      ShowDigits(n / 10);
      assert Show(n)[..|Show(n)| - 1] == Show(n / 10);
    }
  }

  lemma ShowInjective(a: nat, b: nat)
    requires Show(a) == Show(b)
    ensures a == b
  {
    ShowDigits(a);
    ShowDigits(b);
  }

  lemma ParseShow(n: nat, bound: nat)
    requires n < bound
    ensures Parse(Show(n), bound) == Some(n)
  {
    ShowDigits(n);
    assert IsDigit(Show(n)[0]);
  }

  function Zeros(k: nat): string { seq(k, _ => '0') }

  /** The decimal form of a number behind some zeros. */
  function Padded(k: nat, n: nat): string { Zeros(k) + Show(n) }

  /** Digits are the decimal form of their value behind some zeros. */
  lemma {:induction false} DigitsAreShown(s: string) returns (k: nat)
    requires s != [] && Digits(s)
    ensures s == Padded(k, ValueOf(s))
  {
    var n := |s| - 1;
    var init, last := s[..n], s[n];
    assert s == init + [last];
    assert DigitOf((last - '0') as nat) == last;
    if n == 0 {
      assert init == [];
      k := 0;
      assert Zeros(0) + Show(ValueOf(s)) == s;
    } else {
      k := DigitsAreShown(init);
      if ValueOf(init) == 0 {
        assert Show(0) == "0";
        k := k + 1;
        assert init == Zeros(k);
      }
      assert Zeros(k) + Show(ValueOf(s)) == s;
    }
  }

  lemma {:induction false} ZerosShown(k: nat, n: nat)
    ensures Padded(k, n) != [] && Digits(Padded(k, n)) && ValueOf(Padded(k, n)) == n
  {
    ShowDigits(n);
    var s := Zeros(k) + Show(n);
    assert s[..|s| - 1] == Zeros(k) + Show(n)[..|Show(n)| - 1];
    if n < 10 {
      assert Show(n)[..|Show(n)| - 1] == [];
      assert s[..|s| - 1] == Zeros(k);
      ZerosAreZero(k);
    } else {
      assert Show(n)[..|Show(n)| - 1] == Show(n / 10);
      ZerosShown(k, n / 10);
    }
  }

  lemma {:induction false} ZerosAreZero(k: nat)
    ensures Digits(Zeros(k)) && ValueOf(Zeros(k)) == 0
  {
    if k > 0 {
      ZerosAreZero(k - 1);
      assert Zeros(k)[..k - 1] == Zeros(k - 1);
    }
  }

  /** The texts that stand for a number: its decimal form, behind any zeros and perhaps a plus sign. */
  ghost predicate StandsFor(s: string, n: nat) {
    exists k: nat :: s == Padded(k, n) || s == "+" + Padded(k, n)
  }

  lemma ParsedStandsFor(s: string, bound: nat)
    requires Parse(s, bound).Some?
    ensures Parse(s, bound).value < bound && StandsFor(s, Parse(s, bound).value)
  {
    if s[0] == '+' {
      var k := DigitsAreShown(s[1..]);
      assert s == "+" + s[1..];
    } else {
      var k := DigitsAreShown(s);
    }
  }

  lemma DigitsParse(digits: string, bound: nat)
    requires digits != [] && Digits(digits) && ValueOf(digits) < bound
    ensures Parse(digits, bound) == Some(ValueOf(digits)) && Parse("+" + digits, bound) == Some(ValueOf(digits))
  {
    assert IsDigit(digits[0]);
    assert ("+" + digits)[1..] == digits;
  }

  lemma StandsForParses(s: string, bound: nat, n: nat)
    requires n < bound && StandsFor(s, n)
    ensures Parse(s, bound) == Some(n)
  {
    var k: nat :| s == Padded(k, n) || s == "+" + Padded(k, n);
    var digits := Padded(k, n);
    ZerosShown(k, n);
    DigitsParse(digits, bound);
  }

  /** A text is parsed as a number exactly if it stands for it and the number is in range. */
  lemma ParseIff(s: string, bound: nat, n: nat)
    ensures Parse(s, bound) == Some(n) <==> n < bound && StandsFor(s, n)
  {
    if Parse(s, bound) == Some(n) {
      ParsedStandsFor(s, bound);
    }
    if n < bound && StandsFor(s, n) {
      StandsForParses(s, bound, n);
    }
  }
}
