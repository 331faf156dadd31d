// Decimal numbers as the formatter prints them and the matcher reads them.
module Decimal {
  import opened Matching
  import opened Grammar

  function DigitChar(d: int): (c: char)
    requires 0 <= d < 10
    ensures IsDigit(c) && c as int - '0' as int == d
  {
    ('0' as int + d) as char
  }

  function PrintNat(n: nat): (t: string)
    ensures t != "" && AllDigits(t)
  {
    if n < 10 then [DigitChar(n)] else PrintNat(n / 10) + [DigitChar(n % 10)]
  }

  function Num(t: string): nat
    requires AllDigits(t)
  {
    if t == "" then 0
    else
      var front, c := t[..|t| - 1], t[|t| - 1];
      assert c in t && forall x <- front :: x in t;
      Num(front) * 10 + (c as int - '0' as int)
  }

  lemma NumAppend(t: string, c: char)
    requires AllDigits(t) && IsDigit(c)
    ensures AllDigits(t + [c]) && Num(t + [c]) == Num(t) * 10 + (c as int - '0' as int)
  {
    assert (t + [c])[..|t|] == t;
  }

  lemma {:induction false} NumOfPrint(n: nat)
    ensures Num(PrintNat(n)) == n
  {
    if n < 10 {
      NumAppend("", DigitChar(n));
      assert "" + [DigitChar(n)] == PrintNat(n);
    } else {
      NumOfPrint(n / 10);
      NumAppend(PrintNat(n / 10), DigitChar(n % 10));
    }
  }

  function Pow10(k: nat): nat {
    if k == 0 then 1 else 10 * Pow10(k - 1)
  }

  lemma {:induction false} NumBounds(t: string)
    requires AllDigits(t)
    ensures Num(t) < Pow10(|t|)
    ensures t != "" && t[0] != '0' ==> Pow10(|t| - 1) <= Num(t)
  {
    if t != "" {
      var front := t[..|t| - 1];
      assert t[|t| - 1] in t && forall x <- front :: x in t;
      NumBounds(front);
    }
  }

  // Printing gives back every numeral without a leading zero.
  lemma {:induction false} PrintOfNum(t: string)
    requires IsNumber(t) && t[0] != '0'
    ensures PrintNat(Num(t)) == t
  {
    var front, c := t[..|t| - 1], t[|t| - 1];
    assert t == front + [c];
    assert c in t && forall x <- front :: x in t;
    NumAppend(front, c);
    if front != "" {
      PrintOfNum(front);
      NumBounds(front);
      PowIsPositive(|front| - 1);
      assert Num(t) / 10 == Num(front) && Num(t) % 10 == c as int - '0' as int;
      assert DigitChar(c as int - '0' as int) == c;
    } else {
      assert Num(front) == 0;
      assert DigitChar(c as int - '0' as int) == c;
    }
  }

  lemma {:induction false} PowIsPositive(k: nat)
    ensures Pow10(k) > 0
  {
    if k > 0 {
      PowIsPositive(k - 1);
    }
  }

  lemma {:induction false} NoLeadingZero(n: nat)
    requires n > 0
    ensures PrintNat(n)[0] != '0'
  {
    if n >= 10 {
      NoLeadingZero(n / 10);
    }
  }

  lemma {:induction false} PowGrows(a: nat, b: nat)
    requires a <= b
    ensures Pow10(a) <= Pow10(b)
  {
    PowIsPositive(b);
    if a < b {
      PowGrows(a, b - 1);
    }
  }

  lemma EightDigitsPrinted(n: nat)
    ensures 1000_0000 <= n < 1_0000_0000 <==> |PrintNat(n)| == 8 && PrintNat(n)[0] != '0'
  {
    hide Pow10, Num;
    var t := PrintNat(n);
    NumOfPrint(n);
    NumBounds(t);
    Pow7And8();
    if n > 0 {
      NoLeadingZero(n);
      if |t| < 8 {
        PowGrows(|t|, 7);
      } else if |t| > 8 {
        PowGrows(8, |t| - 1);
      }
    } else {
      assert PrintNat(0) == "0";
    }
  }

  lemma Pow7And8()
    ensures Pow10(7) == 1000_0000 && Pow10(8) == 1_0000_0000
  {
    assert Pow10(2) == 100;
    assert Pow10(4) == 1_0000;
    assert Pow10(6) == 100_0000;
  }

  lemma {:induction false} LeadingZeroShrinks(t: string)
    requires IsNumber(t) && t[0] == '0'
    ensures Num(t) < Pow10(|t| - 1)
  {
    var front := t[..|t| - 1];
    assert t[|t| - 1] in t && forall x <- front :: x in t;
    if front != "" {
      LeadingZeroShrinks(front);
    } else {
      assert Num(front) == 0;
    }
  }

  // Eight digits without a leading zero are what the printer gives back.
  lemma EightDigitNumeral(t: string)
    requires |t| == 8 && AllDigits(t) && Num(t) >= 1000_0000
    ensures t[0] != '0' && PrintNat(Num(t)) == t && Num(t) < 1_0000_0000
  {
    hide Num, Pow10;
    Pow7And8();
    NumBounds(t);
    if t[0] == '0' {
      LeadingZeroShrinks(t);
    } else {
      PrintOfNum(t);
    }
  }

  function Repunit(n: nat): nat {
    if n == 0 then 0 else 10 * Repunit(n - 1) + 1
  }

  lemma {:induction false} NumOfEqualDigits(t: string, c: char)
    requires IsDigit(c) && forall i :: 0 <= i < |t| ==> t[i] == c
    ensures AllDigits(t) && Num(t) == (c as int - '0' as int) * Repunit(|t|)
  {
    if t != "" {
      var front := t[..|t| - 1];
      NumOfEqualDigits(front, c);
      assert t == front + [c];
      NumAppend(front, c);
    }
  }

  lemma EightEqualDigits(t: string)
    requires |t| == 8 && IsDigit(t[0]) && forall i :: 0 <= i < 8 ==> t[i] == t[0]
    ensures AllDigits(t) && Num(t) == (t[0] as int - '0' as int) * 1111_1111
  {
    NumOfEqualDigits(t, t[0]);
    assert Repunit(3) == 111;
    assert Repunit(5) == 11111;
    assert Repunit(7) == 1111111;
  }
}
