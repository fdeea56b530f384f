/** Keys as an operator writes them: hexadecimal numbers, in either case, with leading zeros
    or "0x". */
module KeyText {
  import opened Ascii
  import opened ScsiTarget

  predicate IsHexDigit(c: char) {
    '0' <= c <= '9' || 'a' <= c <= 'f' || 'A' <= c <= 'F'
  }

  predicate IsHex(t: string) {
    forall i | 0 <= i < |t| :: IsHexDigit(t[i])
  }

  predicate Prefixed(t: string) {
    |t| >= 2 && t[0] == '0' && t[1] in {'x', 'X'}
  }

  function Digits(t: string): string {
    if Prefixed(t) then t[2..] else t
  }

  predicate IsKeyText(t: string) {
    IsHex(Digits(t))
  }

  /** lstrip('0') */
  function StripZeros(t: string): string {
    if t != [] && t[0] == '0' then StripZeros(t[1..]) else t
  }

  /** The key the text stands for, as the target reports it. */
  function Names(t: string): Key {
    StripZeros(Lower(Digits(t)))
  }

  /** What main of fence_scsi makes of it. */
  function ScsiKey(t: string): string {
    StripZeros(t)
  }

  /** What main of fence_mpath makes of it: "^0x0*|^0+" is removed. */
  function MpathKey(t: string): string {
    if |t| >= 2 && t[0] == '0' && t[1] == 'x' then StripZeros(t[2..]) else StripZeros(t)
  }

  // --------------------------------------------------------------- what a text stands for

  function DigitValue(c: char): (v: nat)
    requires IsHexDigit(c)
    ensures v < 16
  {
    if c <= '9' then c as int - '0' as int
    else if c <= 'F' then c as int - 'A' as int + 10
    else c as int - 'a' as int + 10
  }

  /** The sixteen digits and their values. */
  lemma DigitsMean(v: nat)
    requires v < 16
    ensures IsHexDigit("0123456789abcdef"[v]) && DigitValue("0123456789abcdef"[v]) == v
    ensures IsHexDigit("0123456789ABCDEF"[v]) && DigitValue("0123456789ABCDEF"[v]) == v
    ensures forall c | IsHexDigit(c) :: c in "0123456789abcdefABCDEF"
  {
  }

  function Value(t: string): nat
    requires IsHex(t)
  {
    if t == [] then 0 else 16 * Value(t[..|t|-1]) + DigitValue(t[|t|-1])
  }

  lemma {:induction false} LowerKeepsValue(t: string)
    requires IsHex(t)
    ensures IsHex(Lower(t)) && Value(Lower(t)) == Value(t)
  {
    if t != [] {
      LowerKeepsValue(t[..|t|-1]);
      assert Lower(t)[..|t|-1] == Lower(t[..|t|-1]);
    }
  }

  lemma {:induction false} ZeroInFront(t: string)
    requires IsHex(t)
    ensures Value(['0'] + t) == Value(t)
  {
    if t == [] {
      assert (['0'] + t)[..0] == [];
    } else {
      ZeroInFront(t[..|t|-1]);
      assert (['0'] + t)[..|t|] == ['0'] + t[..|t|-1];
    }
  }

  lemma {:induction false} StripKeepsValue(t: string)
    requires IsHex(t)
    ensures IsHex(StripZeros(t)) && Value(StripZeros(t)) == Value(t)
    ensures StripZeros(t) != [] ==> StripZeros(t)[0] != '0'
  {
    if t != [] && t[0] == '0' {
      StripKeepsValue(t[1..]);
      ZeroInFront(t[1..]);
      assert ['0'] + t[1..] == t;
    }
  }

  /** Lower-case digits without a leading zero. */
  predicate IsReported(t: string) {
    IsHex(t) && Canonical(t) && (t != [] ==> t[0] != '0')
  }

  lemma {:induction false} ReportedIsPositive(t: string)
    requires IsReported(t) && t != []
    ensures Value(t) > 0
  {
    if |t| == 1 {
      assert t[..0] == [];
    } else {
      assert IsReported(t[..|t|-1]) by { PrefixIsReported(t); }
      ReportedIsPositive(t[..|t|-1]);
    }
  }

  lemma PrefixIsReported(t: string)
    requires IsReported(t) && t != []
    ensures IsReported(t[..|t|-1])
  {
    assert Lower(t[..|t|-1]) == Lower(t)[..|t|-1];
  }

  lemma LowerDigit(a: char, b: char)
    requires IsHexDigit(a) && IsHexDigit(b) && LowerChar(a) == a && LowerChar(b) == b && DigitValue(a) == DigitValue(b)
    ensures a == b
  {
  }

  lemma {:induction false} ReportedByValue(s: string, t: string)
    requires IsReported(s) && IsReported(t) && Value(s) == Value(t)
    ensures s == t
    decreases |s|
  {
    if s == [] || t == [] {
      if s != [] { ReportedIsPositive(s); }
      if t != [] { ReportedIsPositive(t); }
    } else {
      var m, n := |s| - 1, |t| - 1;
      PrefixIsReported(s);
      PrefixIsReported(t);
      assert Lower(s)[m] == s[m] && Lower(t)[n] == t[n];
      LowerDigit(s[m], t[n]);
      ReportedByValue(s[..m], t[..n]);
      assert s == s[..m] + [s[m]] && t == t[..n] + [t[n]];
    }
  }

  lemma {:induction false} LowerStrips(t: string)
    ensures Lower(StripZeros(t)) == StripZeros(Lower(t))
  {
    if t != [] {
      assert Lower(t)[1..] == Lower(t[1..]);
      assert Lower(t)[0] == LowerChar(t[0]);
      if t[0] == '0' { LowerStrips(t[1..]); }
    }
  }

  lemma {:induction false} LowerTwice(t: string)
    ensures Lower(Lower(t)) == Lower(t)
  {
    forall i | 0 <= i < |t| ensures Lower(Lower(t))[i] == Lower(t)[i] {
      assert Lower(t)[i] == LowerChar(t[i]);
    }
  }

  lemma NamesIsReported(t: string)
    requires IsKeyText(t)
    ensures IsReported(Names(t)) && Value(Names(t)) == Value(Digits(t))
  {
    LowerKeepsValue(Digits(t));
    StripKeepsValue(Lower(Digits(t)));
    LowerStrips(Lower(Digits(t)));
    LowerTwice(Digits(t));
  }

  /** "0x" in front of digits makes no difference to the key that is meant. */
  lemma PrefixIsNotMeant(digits: string)
    requires IsHex(digits)
    ensures IsKeyText("0x" + digits) && Names("0x" + digits) == Names(digits)
    ensures IsKeyText("0X" + digits) && Names("0X" + digits) == Names(digits)
  {
    assert ("0x" + digits)[2..] == digits && ("0X" + digits)[2..] == digits;
    assert |digits| >= 2 ==> IsHexDigit(digits[1]);
  }

  /** Two texts stand for the same key exactly when they are the same number. */
  lemma SameKeyIffSameNumber(s: string, t: string)
    requires IsKeyText(s) && IsKeyText(t)
    ensures Names(s) == Names(t) <==> Value(Digits(s)) == Value(Digits(t))
  {
    NamesIsReported(s);
    NamesIsReported(t);
    if Value(Digits(s)) == Value(Digits(t)) { ReportedByValue(Names(s), Names(t)); }
  }

  // ------------------------------------------------------------ what the agents make of it

  lemma {:induction false} StripIsLower(t: string)
    ensures Canonical(StripZeros(t)) <==> Canonical(t)
  {
    if t != [] && t[0] == '0' {
      StripIsLower(t[1..]);
      assert Lower(t) == ['0'] + Lower(t[1..]) && t == ['0'] + t[1..];
    }
  }

  /** Exactly when fence_scsi looks for the key that is meant: when it is written in lower
      case and without "0x", of which only the zero is removed. */
  lemma ScsiKeyIff(t: string)
    requires IsKeyText(t)
    ensures ScsiKey(t) == Names(t) <==> !Prefixed(t) && Canonical(t)
    ensures Prefixed(t) ==> ScsiKey(t) != [] && ScsiKey(t)[0] in {'x', 'X'}
    ensures !Prefixed(t) ==> Lower(ScsiKey(t)) == Names(t)
  {
    LowerStrips(t);
    StripIsLower(t);
    NamesIsReported(t);
    if Prefixed(t) {
      assert t[1..][0] == t[1] && StripZeros(t) == StripZeros(t[1..]) == t[1..];
      assert !IsHexDigit(t[1]);
    }
  }

  /** Exactly when fence_mpath does: when it is written in lower case. */
  lemma MpathKeyIff(t: string)
    requires IsKeyText(t)
    ensures MpathKey(t) == Names(t) <==> Canonical(t)
    ensures Canonical(MpathKey(t)) <==> Canonical(t)
  {
    NamesIsReported(t);
    LowerStrips(t);
    StripIsLower(t);
    if Prefixed(t) {
      StripIsLower(t[2..]);
      LowerStrips(t[2..]);
      assert Lower(t) == ['0', LowerChar(t[1])] + Lower(t[2..]) && t == ['0', t[1]] + t[2..];
      if t[1] == 'X' {
        assert StripZeros(t) == StripZeros(t[1..]) == t[1..] && t[1..][0] == 'X';
        assert Lower(t)[1] == 'x';
      }
    }
  }

  /** main of fence_scsi refuses the key 0. */
  predicate Accepted(t: string) {
    t != "" && t != "0"
  }

  lemma {:induction false} StripIsEmpty(t: string)
    ensures StripZeros(t) == [] <==> forall i | 0 <= i < |t| :: t[i] == '0'
  {
    if t != [] {
      StripIsEmpty(t[1..]);
      assert forall i | 0 < i < |t| :: t[i] == t[1..][i-1];
    }
  }

  /** Exactly when the key 0 gets through: when it is written with more than one zero. */
  lemma ZeroIsAccepted(t: string)
    ensures Accepted(t) && ScsiKey(t) == ZERO_KEY <==> |t| >= 2 && forall i | 0 <= i < |t| :: t[i] == '0'
  {
    StripIsEmpty(t);
    if |t| == 1 && t[0] == '0' { assert t == "0"; }
  }
}
