/** Decimal rendering of natural numbers, as `${n}` and f"{i}" print them. */
module Decimal {
  function Digit(d: nat): (c: char)
    requires d < 10
    ensures '0' <= c <= '9'
  {
    (d + '0' as int) as char
  }

  function Render(n: nat): (s: string)
    ensures n < 10 <==> |s| == 1
    ensures s != [] && forall i :: 0 <= i < |s| ==> '0' <= s[i] <= '9'
  {
    if n < 10 then [Digit(n)] else Render(n / 10) + [Digit(n % 10)]
  }

  /** Different numbers print differently. */
  lemma {:induction false} RenderInjective(m: nat, n: nat)
    requires Render(m) == Render(n)
    ensures m == n
  {
    var s, t := Render(m), Render(n);
    if m < 10 || n < 10 {
      assert s[0] == Digit(m) && t[0] == Digit(n);
    } else {
      assert s[|s| - 1] == Digit(m % 10) && t[|t| - 1] == Digit(n % 10);
      assert s[..|s| - 1] == Render(m / 10) && t[..|t| - 1] == Render(n / 10);
      RenderInjective(m / 10, n / 10);
    }
  }

  predicate Digits(s: string) {
    forall i :: 0 <= i < |s| ==> '0' <= s[i] <= '9'
  }

  /** The number that a numeral stands for, read from left to right behind a prefix worth `v`. */
  function Read(v: nat, s: string): nat
    requires Digits(s)
    decreases |s|
  {
    if s == [] then v else Read(10 * v + (s[0] as int - '0' as int), s[1..])
  }

  lemma {:induction false} ReadSnoc(v: nat, s: string, c: char)
    requires Digits(s) && '0' <= c <= '9'
    ensures Digits(s + [c]) && Read(v, s + [c]) == 10 * Read(v, s) + (c as int - '0' as int)
    decreases |s|
  {
    if s == [] {
      assert s + [c] == [c];
    } else {
      assert (s + [c])[1..] == s[1..] + [c];
      ReadSnoc(10 * v + (s[0] as int - '0' as int), s[1..], c);
    }
  }

  /** Reading a rendered number back gives it, and there are no leading zeros. */
  lemma {:induction false} ReadRender(n: nat)
    ensures Digits(Render(n)) && Read(0, Render(n)) == n
    ensures n > 0 ==> Render(n)[0] != '0'
  {
    if n >= 10 {
      ReadRender(n / 10);
      ReadSnoc(0, Render(n / 10), Digit(n % 10));
    } else {
      assert Render(n)[1..] == [];
    }
  }
}
