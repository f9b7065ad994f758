/** Decimal notation, as %d prints it in cache keys and the dashboard writes it into the URL. */
module Decimal {

  predicate IsDigit(c: char) { '0' <= c <= '9' }

  predicate AllDigits(s: string) { forall i :: 0 <= i < |s| ==> IsDigit(s[i]) }

  function DigitChar(d: nat): (c: char)
    requires d < 10
    ensures IsDigit(c) && c as int - '0' as int == d
  {
    ('0' as int + d) as char
  }

  function Show(n: nat): (s: string)
    ensures s != [] && AllDigits(s)
  {
    if n < 10 then [DigitChar(n)] else Show(n / 10) + [DigitChar(n % 10)]
  }

  /** The number a digit string denotes. */
  function Read(s: string): nat
    requires AllDigits(s)
  {
    if s == [] then 0
    else
      assert IsDigit(s[|s| - 1]);
      10 * Read(s[..|s| - 1]) + (s[|s| - 1] as int - '0' as int)
  }

  lemma {:induction false} ReadShow(n: nat)
    ensures Read(Show(n)) == n
  {
    if n < 10 {
      assert Show(n)[..0] == [];
    } else {
      assert Show(n)[..|Show(n)| - 1] == Show(n / 10);
      ReadShow(n / 10);
    }
  }

  lemma DigitsAfterSeparator(s: string, separator: char, x: string)
    requires AllDigits(x)
    ensures var u := s + [separator] + x; u[|s|] == separator && forall i :: |s| < i < |u| ==> IsDigit(u[i])
  {
    var u := s + [separator] + x;
    forall i | |s| < i < |u| ensures IsDigit(u[i]) {
      assert u[i] == x[i - |s| - 1];
    }
  }

  /** A text, a separator that is no digit, and a number split in only one way, whatever the text contains. */
  lemma NumberSuffixUnique(s: string, t: string, separator: char, m: nat, n: nat)
    requires !IsDigit(separator) && s + [separator] + Show(m) == t + [separator] + Show(n)
    ensures s == t && m == n
  {
    DigitsAfterSeparator(s, separator, Show(m));
    DigitsAfterSeparator(t, separator, Show(n));
    var u := s + [separator] + Show(m);
    assert u[..|s|] == s && u[..|t|] == t;
    assert u[|s| + 1..] == Show(m) && u[|t| + 1..] == Show(n);
    ReadShow(m);
    ReadShow(n);
  }
}
