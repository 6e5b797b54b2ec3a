/** Decimal notation, as printed by "%d" and read by strtol. */
module Decimal {

  function DigitChar(d: nat): char
    requires d < 10
  {
    '0' + d as char
  }

  predicate IsDigit(c: char) { '0' <= c <= '9' }

  predicate AllDigits(s: string) {
    forall i :: 0 <= i < |s| ==> IsDigit(s[i])
  }

  function Digits(n: nat): (s: string)
    ensures s != "" && AllDigits(s)
  {
    if n < 10 then [DigitChar(n)] else Digits(n / 10) + [DigitChar(n % 10)]
  }

  function Value(s: string): nat
    requires AllDigits(s)
  {
    if s == "" then 0 else 10 * Value(s[..|s| - 1]) + (s[|s| - 1] - '0') as nat
  }

  lemma {:induction false} ValueOfDigits(n: nat)
    ensures Value(Digits(n)) == n
  {
    if n < 10 {
    } else {
      ValueOfDigits(n / 10);
      assert Digits(n)[..|Digits(n)| - 1] == Digits(n / 10);
    }
  }

  function PowerOfTen(k: nat): nat {
    if k == 0 then 1 else 10 * PowerOfTen(k - 1)
  }

  lemma {:induction false} OneDigit(s: string)
    requires AllDigits(s) && |s| == 1
    ensures Value(s) == (s[0] - '0') as nat
  {
    assert s[..0] == "";
  }

  /** Place value: what is in front counts ten times for each digit behind it. */
  lemma {:induction false} PlaceValue(a: string, b: string)
    requires AllDigits(a) && AllDigits(b)
    ensures Value(a + b) == Value(a) * PowerOfTen(|b|) + Value(b)
  {
    if b == "" {
      assert a + b == a;
    } else {
      var k := |b| - 1;
      var init := a + b[..k];
      assert (a + b)[..|a + b| - 1] == init;
      PlaceValue(a, b[..k]);
      assert Value(a + b) == 10 * Value(init) + (b[k] - '0') as nat;
      OneMoreDigit(Value(a), PowerOfTen(k), Value(b[..k]), (b[k] - '0') as nat);
    }
  }

  lemma {:induction false} OneMoreDigit(v: nat, p: nat, w: nat, d: nat)
    ensures 10 * (v * p + w) + d == v * (10 * p) + (10 * w + d)
  {
    assert 10 * (v * p) == v * (10 * p);
  }

  function Zeros(k: nat): string {
    seq(k, _ => '0')
  }

  /** `s` is the decimal notation of `n`, with zeros in front. */
  ghost predicate IsNotation(s: string, n: nat) {
    |Digits(n)| <= |s| && s == Zeros(|s| - |Digits(n)|) + Digits(n)
  }

  lemma {:induction false} NotationNext(t: string, v: nat, c: char)
    requires IsNotation(t, v) && IsDigit(c)
    ensures IsNotation(t + [c], 10 * v + (c - '0') as nat)
  {
    var d := (c - '0') as nat;
    assert DigitChar(d) == c && (10 * v + d) / 10 == v && (10 * v + d) % 10 == d;
    if v == 0 {
      assert Digits(v) == "0" && Digits(d) == [c] && t == Zeros(|t|);
    } else {
      assert Digits(10 * v + d) == Digits(v) + [c];
    }
  }

  /** Any digits are the decimal notation of their value, with zeros in front. */
  lemma {:induction false} DigitsAre(s: string)
    requires s != "" && AllDigits(s)
    ensures IsNotation(s, Value(s))
  {
    var k := |s| - 1;
    if k == 0 {
      OneDigit(s);
      assert Digits(Value(s)) == s;
    } else {
      DigitsAre(s[..k]);
      NotationNext(s[..k], Value(s[..k]), s[k]);
      assert s == s[..k] + [s[k]];
    }
  }

  lemma {:induction false} NoLeadingZero(n: nat)
    ensures Digits(n)[0] == '0' ==> Digits(n) == "0"
    ensures n > 0 ==> Digits(n)[0] != '0'
  {
    if n >= 10 {
      NoLeadingZero(n / 10);
    }
  }

  /** Leading zeros, as in "%06d". */
  function Padded(width: nat, n: nat): (s: string)
    ensures AllDigits(s)
  {
    if |Digits(n)| >= width then Digits(n) else seq(width - |Digits(n)|, _ => '0') + Digits(n)
  }

  lemma {:induction false} ValueWithZeros(k: nat, s: string)
    requires AllDigits(s)
    ensures Value(seq(k, _ => '0') + s) == Value(s)
  {
    var zeros := seq(k, _ => '0');
    if s == "" {
      assert zeros + s == zeros;
      ZerosValue(k);
    } else {
      assert (zeros + s)[..|zeros + s| - 1] == zeros + s[..|s| - 1];
      ValueWithZeros(k, s[..|s| - 1]);
    }
  }

  lemma {:induction false} ZerosValue(k: nat)
    ensures Value(seq(k, _ => '0')) == 0
  {
    if k == 0 {
    } else {
      ZerosValue(k - 1);
      assert seq(k, _ => '0')[..k - 1] == seq(k - 1, _ => '0');
    }
  }

  /** Different numbers have different padded forms, of any width. */
  lemma {:induction false} PaddedInjective(width: nat, a: nat, b: nat)
    requires Padded(width, a) == Padded(width, b)
    ensures a == b
  {
    ValueOfDigits(a);
    ValueOfDigits(b);
    if |Digits(a)| < width {
      ValueWithZeros(width - |Digits(a)|, Digits(a));
    }
    if |Digits(b)| < width {
      ValueWithZeros(width - |Digits(b)|, Digits(b));
    }
  }
}
