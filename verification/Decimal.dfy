/** Decimal notation of natural numbers, as str() and JSON write them. */
module Decimal {

  function Digit(d: nat): char
    requires d < 10
  {
    ('0' as int + d) as char
  }

  function Dec(n: nat): (s: string)
    ensures |s| >= 1
    ensures forall i | 0 <= i < |s| :: '0' <= s[i] <= '9'
  {
    if n < 10 then [Digit(n)] else Dec(n / 10) + [Digit(n % 10)]
  }

  lemma {:induction false} DecInjective(a: nat, b: nat)
    requires Dec(a) == Dec(b)
    ensures a == b
  {
    assert (a >= 10 <==> |Dec(a)| >= 2) && (b >= 10 <==> |Dec(b)| >= 2);
    if a >= 10 {
      var s := Dec(a);
      assert s[..|s|-1] == Dec(a / 10) && s[..|s|-1] == Dec(b / 10);
      DecInjective(a / 10, b / 10);
      assert s[|s|-1] == Digit(a % 10) == Digit(b % 10);
    }
  }

  lemma DecDiffers(a: nat, b: nat)
    requires a != b
    ensures Dec(a) != Dec(b)
  {
    if Dec(a) == Dec(b) {
      DecInjective(a, b);
    }
  }

  lemma DecUpTo999(n: nat)
    requires n <= 999
    ensures |Dec(n)| <= 3
  {
    assert n < 10 || |Dec(n)| == |Dec(n / 10)| + 1;
    assert n / 10 < 10 || |Dec(n / 10)| == |Dec(n / 10 / 10)| + 1;
  }

  lemma LastUnderscore(p: string, a: nat)
    ensures var s := p + "_" + Dec(a);
            s[|p|] == '_' && forall i | |p| < i < |s| :: s[i] != '_'
  {
    var s := p + "_" + Dec(a);
    assert forall i | |p| < i < |s| :: s[i] == Dec(a)[i - |p| - 1];
  }

  /** Two texts that end in underscore and a number are equal only if the parts are. */
  lemma SplitAtUnderscore(p: string, a: nat, q: string, b: nat)
    requires p + "_" + Dec(a) == q + "_" + Dec(b)
    ensures p == q && a == b
  {
    var s := p + "_" + Dec(a);
    LastUnderscore(p, a);
    LastUnderscore(q, b);
    assert s[..|p|] == p && s[..|q|] == q;
    assert s[|p|+1..] == Dec(a) && s[|q|+1..] == Dec(b);
    DecInjective(a, b);
  }
}
