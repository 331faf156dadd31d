// The code compares versions as strings. How far that agrees with the order of
// section 3.3 of the Package Manager Specification, on dotted numbers.
module VersionOrder {
  import opened Grammar
  import opened Decimal
  import opened Update

  // 1.2.3 as its components; a version has at least one.
  function Dotted(cs: seq<string>): string
    requires |cs| >= 1
  {
    cs[0] + PrintMinors(cs[1..])
  }

  // Component by component with a given order on components; of two versions where one
  // runs out, the longer is the later.
  predicate ComponentsLess(less: (string, string) -> bool, a: seq<string>, b: seq<string>) {
    b != [] && (a == [] || (if a[0] == b[0] then ComponentsLess(less, a[1..], b[1..]) else less(a[0], b[0])))
  }

  // The order of PMS on components without leading zeros.
  predicate NumLess(a: string, b: string) {
    AllDigits(a) && AllDigits(b) && Num(a) < Num(b)
  }

  predicate PmsLess(a: seq<string>, b: seq<string>) {
    ComponentsLess(NumLess, a, b)
  }

  // The components at the first place where two versions differ, if both have one.
  function FirstDifference(a: seq<string>, b: seq<string>): (d: (string, string)) {
    if a == [] || b == [] then ("", "")
    else if a[0] == b[0] then FirstDifference(a[1..], b[1..])
    else (a[0], b[0])
  }

  // The order of strings: the first difference decides, or the end of the shorter one.
  lemma {:induction false} LexLessIff(a: string, b: string)
    ensures LexLess(a, b) <==>
            exists k: nat :: k < |b| && k <= |a| && a[..k] == b[..k] && (k < |a| ==> a[k] < b[k])
  {
    if a != "" && b != "" && a[0] == b[0] {
      LexLessIff(a[1..], b[1..]);
      if LexLess(a, b) {
        var k: nat :| k < |b| - 1 && k <= |a| - 1 && a[1..][..k] == b[1..][..k]
                      && (k < |a| - 1 ==> a[1..][k] < b[1..][k]);
        assert a[..k + 1] == [a[0]] + a[1..][..k] && b[..k + 1] == [b[0]] + b[1..][..k];
        assert a[..k + 1] == b[..k + 1] && (k + 1 < |a| ==> a[k + 1] < b[k + 1]);
      }
      if exists k: nat :: k < |b| && k <= |a| && a[..k] == b[..k] && (k < |a| ==> a[k] < b[k]) {
        var k: nat :| k < |b| && k <= |a| && a[..k] == b[..k] && (k < |a| ==> a[k] < b[k]);
        assert k > 0;
        assert a[1..][..k - 1] == a[..k][1..] && b[1..][..k - 1] == b[..k][1..];
      }
    } else if LexLess(a, b) {
      assert a[..0] == b[..0];
    }
  }

  // ---------- String order is component order ----------

  lemma {:induction false} SameFront(x: string, a: string, b: string)
    ensures LexLess(x + a, x + b) <==> LexLess(a, b)
  {
    if x == "" {
      assert x + a == a && x + b == b;
    } else {
      assert (x + a)[1..] == x[1..] + a && (x + b)[1..] == x[1..] + b;
      SameFront(x[1..], a, b);
    }
  }

  // Behind a component stands nothing or a dot, and a dot comes before every digit.
  lemma {:induction false} DifferentFront(x: string, y: string, a: string, b: string)
    requires AllDigits(x) && AllDigits(y) && x != y
    requires (a != "" ==> a[0] == '.') && (b != "" ==> b[0] == '.')
    ensures LexLess(x + a, y + b) <==> LexLess(x, y)
  {
    if x == "" {
      assert y[0] in y && y + b != "" && (y + b)[0] == y[0];
      assert x + a == a;
    } else if y == "" {
      assert x[0] in x && (x + a)[0] == x[0];
      assert y + b == b;
    } else if x[0] == y[0] {
      assert forall c <- x[1..] :: c in x;
      assert forall c <- y[1..] :: c in y;
      assert (x + a)[1..] == x[1..] + a && (y + b)[1..] == y[1..] + b;
      assert x == [x[0]] + x[1..] && y == [y[0]] + y[1..];
      DifferentFront(x[1..], y[1..], a, b);
    }
  }

  lemma MinorsStartWithDot(ms: seq<string>)
    ensures PrintMinors(ms) != "" ==> PrintMinors(ms)[0] == '.'
    ensures ms != [] ==> PrintMinors(ms) != ""
  {
  }

  lemma {:induction false} StringOrderOfMinors(a: seq<string>, b: seq<string>)
    requires AreNumbers(a) && AreNumbers(b)
    ensures LexLess(PrintMinors(a), PrintMinors(b)) <==> ComponentsLess(LexLess, a, b)
  {
    if a != [] && b != [] {
      var x, y, ra, rb := a[0], b[0], PrintMinors(a[1..]), PrintMinors(b[1..]);
      assert IsNumber(x) && IsNumber(y);
      assert PrintMinors(a) == "." + (x + ra) && PrintMinors(b) == "." + (y + rb);
      SameFront(".", x + ra, y + rb);
      MinorsStartWithDot(a[1..]);
      MinorsStartWithDot(b[1..]);
      if x == y {
        SameFront(x, ra, rb);
        StringOrderOfMinors(a[1..], b[1..]);
      } else {
        DifferentFront(x, y, ra, rb);
      }
    }
  }

  // For all dotted numbers, comparing strings is comparing components as strings.
  lemma StringOrderIsComponentOrder(a: seq<string>, b: seq<string>)
    requires |a| >= 1 && |b| >= 1 && AreNumbers(a) && AreNumbers(b)
    ensures LexLess(Dotted(a), Dotted(b)) <==> ComponentsLess(LexLess, a, b)
  {
    assert PrintMinors(a) == "." + Dotted(a) && PrintMinors(b) == "." + Dotted(b);
    SameFront(".", Dotted(a), Dotted(b));
    StringOrderOfMinors(a, b);
  }

  // ---------- Agreement with PMS ----------

  lemma {:induction false} OrdersDifferAtFirstDifference(a: seq<string>, b: seq<string>)
    requires AreNumbers(a) && AreNumbers(b)
    ensures var d := FirstDifference(a, b);
            (ComponentsLess(LexLess, a, b) <==> PmsLess(a, b))
            <==> d == ("", "") || (LexLess(d.0, d.1) <==> NumLess(d.0, d.1))
  {
    if a != [] && b != [] && a[0] == b[0] {
      OrdersDifferAtFirstDifference(a[1..], b[1..]);
    } else if a != [] && b != [] {
      assert IsNumber(a[0]) && IsNumber(b[0]);
    }
  }

  lemma {:induction false} SameLengthOrder(x: string, y: string)
    requires AllDigits(x) && AllDigits(y) && |x| == |y|
    ensures LexLess(x, y) <==> Num(x) < Num(y)
    decreases |x|
  {
    if x != "" {
      var m := |x| - 1;
      var fx, fy, cx, cy := x[..m], y[..m], x[m], y[m];
      assert x == fx + [cx] && y == fy + [cy];
      assert cx in x && cy in y;
      assert forall c <- fx :: c in x;
      assert forall c <- fy :: c in y;
      NumAppend(fx, cx);
      NumAppend(fy, cy);
      SameLengthOrder(fx, fy);
      if fx == fy {
        SameFront(fx, [cx], [cy]);
        assert [cx][1..] == "" && [cy][1..] == "";
      } else {
        LastCharIsLate(fx, fy, [cx], [cy]);
        SameLengthDistinct(fx, fy);
      }
    }
  }

  lemma {:induction false} LastCharIsLate(x: string, y: string, a: string, b: string)
    requires |x| == |y| && x != y
    ensures LexLess(x + a, y + b) <==> LexLess(x, y)
  {
    assert (x + a)[1..] == x[1..] + a && (y + b)[1..] == y[1..] + b;
    if x[0] == y[0] {
      assert x == [x[0]] + x[1..] && y == [y[0]] + y[1..];
      LastCharIsLate(x[1..], y[1..], a, b);
    }
  }

  lemma {:induction false} SameLengthDistinct(x: string, y: string)
    requires AllDigits(x) && AllDigits(y) && |x| == |y| && x != y
    ensures Num(x) != Num(y)
    decreases |x|
  {
    var m := |x| - 1;
    var fx, fy, cx, cy := x[..m], y[..m], x[m], y[m];
    assert x == fx + [cx] && y == fy + [cy];
    assert cx in x && cy in y;
    assert forall c <- fx :: c in x;
    assert forall c <- fy :: c in y;
    NumAppend(fx, cx);
    NumAppend(fy, cy);
    if fx != fy {
      SameLengthDistinct(fx, fy);
    }
  }

  // No leading zero.
  predicate IsCanonical(x: string) {
    |x| <= 1 || x[0] != '0'
  }

  lemma {:induction false} LexLessIsTotal(x: string, y: string)
    ensures x == y || LexLess(x, y) || LexLess(y, x)
    ensures !(LexLess(x, y) && LexLess(y, x))
  {
    if x != "" && y != "" && x[0] == y[0] {
      assert x == [x[0]] + x[1..] && y == [y[0]] + y[1..];
      LexLessIsTotal(x[1..], y[1..]);
    }
  }

  lemma MoreDigitsIsGreater(x: string, y: string)
    requires IsNumber(x) && IsNumber(y) && IsCanonical(y) && |x| < |y|
    ensures Num(x) < Num(y)
  {
    hide Num;
    NumBounds(x);
    NumBounds(y);
    PowGrows(|x|, |y| - 1);
  }

  // String order agrees with PMS exactly when the components at the first difference
  // have equally many digits or the one with fewer digits is also the first as a string.
  lemma StringOrderAgreesIff(a: seq<string>, b: seq<string>)
    requires |a| >= 1 && |b| >= 1 && AreNumbers(a) && AreNumbers(b)
    requires var d := FirstDifference(a, b); IsCanonical(d.0) && IsCanonical(d.1)
    ensures var (x, y) := FirstDifference(a, b);
            (LexLess(Dotted(a), Dotted(b)) <==> PmsLess(a, b))
            <==> |x| == |y| || (if |x| < |y| then LexLess(x, y) else LexLess(y, x))
  {
    hide Dotted, LexLess, ComponentsLess, PmsLess, Num, IsCanonical;
    StringOrderIsComponentOrder(a, b);
    OrdersDifferAtFirstDifference(a, b);
    DifferenceIsNumbers(a, b);
    var (x, y) := FirstDifference(a, b);
    if |x| == |y| {
      SameLengthOrder(x, y);
    } else if |x| < |y| {
      MoreDigitsIsGreater(x, y);
    } else {
      MoreDigitsIsGreater(y, x);
      LexLessIsTotal(x, y);
    }
  }

  // Equal digit counts at the first difference are enough, leading zeros or not.
  lemma EqualDigitCountsAgree(a: seq<string>, b: seq<string>)
    requires |a| >= 1 && |b| >= 1 && AreNumbers(a) && AreNumbers(b)
    requires var d := FirstDifference(a, b); |d.0| == |d.1|
    ensures LexLess(Dotted(a), Dotted(b)) <==> PmsLess(a, b)
  {
    hide Dotted, LexLess, ComponentsLess;
    StringOrderIsComponentOrder(a, b);
    OrdersDifferAtFirstDifference(a, b);
    DifferenceIsNumbers(a, b);
    var d := FirstDifference(a, b);
    SameLengthOrder(d.0, d.1);
  }

  lemma {:induction false} DifferenceIsNumbers(a: seq<string>, b: seq<string>)
    requires AreNumbers(a) && AreNumbers(b)
    ensures var d := FirstDifference(a, b);
            AllDigits(d.0) && AllDigits(d.1) && (d == ("", "") || (IsNumber(d.0) && IsNumber(d.1) && d.0 != d.1))
  {
    if a != [] && b != [] {
      assert IsNumber(a[0]) && IsNumber(b[0]);
      if a[0] == b[0] {
        DifferenceIsNumbers(a[1..], b[1..]);
      }
    }
  }

  // 1.9 is followed by 1.10, and the string comparison does not see it.
  lemma TenAfterNineIsMissed()
    ensures PmsLess(["1", "9"], ["1", "10"])
    ensures !LexLess(Dotted(["1", "9"]), Dotted(["1", "10"]))
  {
    StringOrderIsComponentOrder(["1", "9"], ["1", "10"]);
    NumAppend("", '9');
    NumAppend("", '1');
    NumAppend("1", '0');
    assert "" + "9" == "9" && "" + "1" == "1" && "1" + "0" == "10";
    assert ["1", "9"][1..] == ["9"] && ["1", "10"][1..] == ["10"];
    assert NumLess("9", "10");
    assert !LexLess("9", "10");
  }
}
