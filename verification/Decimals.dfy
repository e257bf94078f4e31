// Numbers as JavaScript prints them: Number::toString, section 6.1.6.1.20 of ECMA-262.
module Decimals {
  import opened Bytes
  import opened Sorting

  // JavaScript strings, in and out, are sequences of UTF-16 code units.
  type Text = seq<CodeUnit>

  const MINUS: CodeUnit := 45
  const PLUS: CodeUnit := 43
  const DOT: CodeUnit := 46
  const EXPONENT: CodeUnit := 101
  const ZERO: CodeUnit := 48

  type Digit = d: nat | d < 10

  // A finite number: the shortest decimal digits that name it, 0.d1d2d3... times 10 to the point.
  // Zero, of either sign, has no digits.
  datatype Decimal = Decimal(negative: bool, digits: seq<Digit>, point: int)

  predicate Shortest(x: Decimal) {
    if x.digits == [] then !x.negative && x.point == 0
    else x.digits[0] != 0 && x.digits[|x.digits| - 1] != 0
  }

  type Finite = x: Decimal | Shortest(x) witness Decimal(false, [], 0)

  function Chars(digits: seq<Digit>): (r: Text)
    ensures |r| == |digits| && forall i :: 0 <= i < |r| ==> r[i] == ZERO + digits[i]
  {
    seq(|digits|, i requires 0 <= i < |digits| => ZERO + digits[i])
  }

  function Noughts(n: nat): (r: Text)
    ensures |r| == n && forall i :: 0 <= i < n ==> r[i] == ZERO
  {
    seq(n, _ => ZERO)
  }

  function Digits(n: nat): (r: Text)
    ensures r != [] && forall c :: c in r ==> ZERO <= c <= 57
  {
    if n < 10 then [ZERO + n] else Digits(n / 10) + [ZERO + n % 10]
  }

  predicate Scientific(x: Finite) {
    x.point <= -6 || 21 < x.point
  }

  // The text without its sign: what stands before the point, from the point on, and the exponent.
  function Whole(x: Finite): Text {
    var (d, k, n) := (x.digits, |x.digits|, x.point);
    if k == 0 then [ZERO]
    else if Scientific(x) then Chars(d[..1])
    else if k <= n then Chars(d) + Noughts(n - k)
    else if 0 < n then Chars(d[..n])
    else [ZERO]
  }

  function Fraction(x: Finite): Text {
    var (d, k, n) := (x.digits, |x.digits|, x.point);
    if k == 0 then []
    else if Scientific(x) then if k == 1 then [] else [DOT] + Chars(d[1..])
    else if k <= n then []
    else if 0 < n then [DOT] + Chars(d[n..])
    else [DOT] + Noughts(-n) + Chars(d)
  }

  function Exponent(x: Finite): Text {
    var e := x.point - 1;
    if !Scientific(x) then []
    else if e < 0 then [EXPONENT, MINUS] + Digits(-e)
    else [EXPONENT, PLUS] + Digits(e)
  }

  function NumberText(x: Finite): Text {
    (if x.negative then [MINUS] else []) + (Whole(x) + (Fraction(x) + Exponent(x)))
  }

  // ---------- different numbers have different texts ----------

  predicate IsDigit(c: CodeUnit) { ZERO <= c <= 57 }

  predicate InFractions(c: CodeUnit) { IsDigit(c) || c == DOT }

  predicate InNumbers(c: CodeUnit) {
    IsDigit(c) || c in [MINUS, PLUS, DOT, EXPONENT]
  }

  lemma PartsAre(x: Finite)
    ensures Whole(x) != [] && forall c :: c in Whole(x) ==> IsDigit(c)
    ensures Fraction(x) != [] ==> Fraction(x)[0] == DOT
    ensures forall c :: c in Fraction(x) ==> InFractions(c)
    ensures Exponent(x) != [] ==> Exponent(x)[0] == EXPONENT
    ensures forall c :: c in Exponent(x) ==> InNumbers(c)
  {
  }

  lemma TextIs(x: Finite)
    ensures forall c :: c in NumberText(x) ==> InNumbers(c)
    ensures NumberText(x) != [] && (NumberText(x)[0] == MINUS <==> x.negative)
    ensures x.negative || IsDigit(NumberText(x)[0])
  {
    hide Whole;
    hide Fraction;
    hide Exponent;
    PartsAre(x);
    assert Whole(x)[0] in Whole(x);
  }

  // A part ends where a unit outside its alphabet comes.
  lemma SamePart(a: Text, s: Text, b: Text, t: Text, p: CodeUnit -> bool)
    requires a + s == b + t
    requires forall c :: (c in a || c in b) ==> p(c)
    requires s == [] || !p(s[0])
    requires t == [] || !p(t[0])
    ensures a == b && s == t
  {
    NotShorter(a, s, b, t, p);
    NotShorter(b, t, a, s, p);
    SameHead(a, s, b, t);
  }

  lemma NotShorter(a: Text, s: Text, b: Text, t: Text, p: CodeUnit -> bool)
    requires a + s == b + t
    requires forall c :: c in b ==> p(c)
    requires s == [] || !p(s[0])
    ensures |b| <= |a|
  {
    forall i | 0 <= i < |b| ensures (b + t)[i] == b[i] && p((b + t)[i]) {
      assert b[i] in b;
    }
    assert s != [] ==> (a + s)[|a|] == s[0];
  }

  function Val(t: Text): int {
    if t == [] then 0 else 10 * Val(t[..|t| - 1]) + (t[|t| - 1] as int - ZERO)
  }

  lemma {:induction false} DigitsValue(n: nat)
    ensures Val(Digits(n)) == n
  {
    var t := Digits(n);
    if n >= 10 {
      DigitsValue(n / 10);
      assert t[..|t| - 1] == Digits(n / 10);
    } else {
      assert t[..0] == [];
    }
  }

  lemma ExponentsUnique(x: Finite, y: Finite)
    requires Exponent(x) == Exponent(y)
    ensures Scientific(x) == Scientific(y)
    ensures Scientific(x) ==> x.point == y.point
  {
    if Scientific(x) {
      var (e, f) := (x.point - 1, y.point - 1);
      assert Exponent(x)[1] == Exponent(y)[1];
      assert Exponent(x)[2..] == Digits(if e < 0 then -e else e);
      assert Exponent(y)[2..] == Digits(if f < 0 then -f else f);
      DigitsValue(if e < 0 then -e else e);
      DigitsValue(if f < 0 then -f else f);
    }
  }

  lemma CharsUnique(d: seq<Digit>, e: seq<Digit>)
    requires Chars(d) == Chars(e)
    ensures d == e
  {
    forall i | 0 <= i < |d| ensures d[i] == e[i] {
      assert Chars(d)[i] == Chars(e)[i];
    }
  }

  // The significant digits of a row of digits are those between its outer zeros.
  lemma CoreUnique(a: nat, d: seq<Digit>, b: nat, v: nat, e: seq<Digit>, w: nat)
    requires d != [] && d[0] != 0 && d[|d| - 1] != 0
    requires e != [] && e[0] != 0 && e[|e| - 1] != 0
    requires Noughts(a) + Chars(d) + Noughts(b) == Noughts(v) + Chars(e) + Noughts(w)
    ensures a == v && d == e && b == w
  {
    CoreStarts(a, d, b, v, e, w);
    CoreStarts(v, e, w, a, d, b);
    CoreEnds(a, d, b, v, e, w);
    CoreEnds(v, e, w, a, d, b);
    assert Chars(d) == (Noughts(a) + Chars(d) + Noughts(b))[a..a + |d|];
    assert Chars(e) == (Noughts(v) + Chars(e) + Noughts(w))[v..v + |e|];
    CharsUnique(d, e);
  }

  lemma CoreStarts(a: nat, d: seq<Digit>, b: nat, v: nat, e: seq<Digit>, w: nat)
    requires d != [] && d[0] != 0 && e != []
    requires Noughts(a) + Chars(d) + Noughts(b) == Noughts(v) + Chars(e) + Noughts(w)
    ensures v <= a
  {
    assert (Noughts(a) + Chars(d) + Noughts(b))[a] == ZERO + d[0];
    assert forall i :: 0 <= i < v ==> (Noughts(v) + Chars(e) + Noughts(w))[i] == ZERO;
  }

  lemma CoreEnds(a: nat, d: seq<Digit>, b: nat, v: nat, e: seq<Digit>, w: nat)
    requires d != [] && d[|d| - 1] != 0 && e != []
    requires Noughts(a) + Chars(d) + Noughts(b) == Noughts(v) + Chars(e) + Noughts(w)
    ensures a + |d| <= v + |e|
  {
    var r := Noughts(v) + Chars(e) + Noughts(w);
    assert (Noughts(a) + Chars(d) + Noughts(b))[a + |d| - 1] == ZERO + d[|d| - 1];
    assert forall i :: v + |e| <= i < |r| ==> r[i] == ZERO;
  }

  // All digits of a text, without the point.
  function Row(x: Finite): Text {
    Whole(x) + if Fraction(x) == [] then [] else Fraction(x)[1..]
  }

  function Before(x: Finite): nat {
    if !Scientific(x) && x.point <= 0 then 1 - x.point else 0
  }

  function Behind(x: Finite): nat {
    if !Scientific(x) && |x.digits| < x.point then x.point - |x.digits| else 0
  }

  lemma RowIs(x: Finite)
    ensures x.digits == [] ==> Row(x) == [ZERO]
    ensures x.digits != [] ==> Row(x) == Noughts(Before(x)) + Chars(x.digits) + Noughts(Behind(x))
    ensures !Scientific(x) && 0 < x.point ==> x.point == |Whole(x)|
  {
    var (d, n) := (x.digits, x.point);
    hide Chars;
    hide Noughts;
    if d != [] {
      if Scientific(x) {
        Outermost(d);
        CharsSplit(d, 1);
      } else if |d| <= n {
        Outermost(d);
      } else if 0 < n {
        Outermost(d);
        CharsSplit(d, n);
      } else {
        SmallRow(d, n);
      }
    }
  }

  lemma Outermost(d: seq<Digit>)
    ensures Noughts(0) + Chars(d) == Chars(d) == Chars(d) + Noughts(0)
  {
  }

  lemma CharsSplit(d: seq<Digit>, n: nat)
    requires n <= |d|
    ensures Chars(d) == Chars(d[..n]) + Chars(d[n..])
    ensures d[n..] == [] ==> Chars(d) == Chars(d[..n])
  {
  }

  lemma SmallRow(d: seq<Digit>, n: int)
    requires n <= 0
    ensures [ZERO] + ([DOT] + Noughts(-n) + Chars(d))[1..] == Noughts(1 - n) + Chars(d) + Noughts(0)
  {
    assert ([DOT] + Noughts(-n) + Chars(d))[1..] == Noughts(-n) + Chars(d);
  }

  // A row of significant digits is not the lone zero.
  lemma RowOfZero(x: Finite)
    requires x.digits != []
    ensures Row(x) != [ZERO]
  {
    RowIs(x);
    assert Row(x)[Before(x)] == ZERO + x.digits[0];
  }

  lemma SameText(x: Finite, y: Finite)
    requires NumberText(x) == NumberText(y)
    ensures x == y
  {
    TextIs(x);
    TextIs(y);
    PartsAre(x);
    PartsAre(y);
    RowIs(x);
    RowIs(y);
    hide Whole;
    hide Fraction;
    hide Exponent;
    var (f, g) := (Fraction(x) + Exponent(x), Fraction(y) + Exponent(y));
    SameHead(if x.negative then [MINUS] else [], Whole(x) + f, if y.negative then [MINUS] else [], Whole(y) + g);
    SamePart(Whole(x), f, Whole(y), g, IsDigit);
    SamePart(Fraction(x), Exponent(x), Fraction(y), Exponent(y), InFractions);
    ExponentsUnique(x, y);
    if x.digits != [] && y.digits != [] {
      CoreUnique(Before(x), x.digits, Behind(x), Before(y), y.digits, Behind(y));
    } else if x.digits != [] {
      RowOfZero(x);
    } else if y.digits != [] {
      RowOfZero(y);
    }
  }

  lemma NumbersUnique(x: Finite, y: Finite)
    ensures NumberText(x) == NumberText(y) <==> x == y
  {
    hide NumberText;
    if NumberText(x) == NumberText(y) {
      SameText(x, y);
    }
  }

  // The same with text behind that cannot continue a number.
  lemma NumbersReadable(x: Finite, y: Finite, s: Text, t: Text)
    requires NumberText(x) + s == NumberText(y) + t
    requires s == [] || !InNumbers(s[0])
    requires t == [] || !InNumbers(t[0])
    ensures x == y && s == t
  {
    TextIs(x);
    TextIs(y);
    hide NumberText;
    SamePart(NumberText(x), s, NumberText(y), t, InNumbers);
    NumbersUnique(x, y);
  }

  // ---------- what the text says ----------

  // A row of digits, the most significant first.
  function DigitValue(s: seq<Digit>): nat {
    if s == [] then 0 else 10 * DigitValue(s[..|s| - 1]) + s[|s| - 1]
  }

  function Pow10(n: nat): nat {
    if n == 0 then 1 else 10 * Pow10(n - 1)
  }

  function Nothing(n: nat): (r: seq<Digit>)
    ensures |r| == n && forall i :: 0 <= i < n ==> r[i] == 0
  {
    seq(n, _ => 0)
  }

  lemma {:induction false} ZerosBehind(s: seq<Digit>, n: nat)
    ensures DigitValue(s + Nothing(n)) == DigitValue(s) * Pow10(n)
  {
    var t := s + Nothing(n);
    if n == 0 {
      assert t == s;
    } else {
      assert t[..|t| - 1] == s + Nothing(n - 1);
      ZerosBehind(s, n - 1);
      Tenfold(DigitValue(s), Pow10(n - 1));
    }
  }

  lemma Tenfold(v: nat, p: nat)
    ensures 10 * (v * p) + 0 == v * (10 * p)
  {
  }

  lemma {:induction false} ZerosAhead(n: nat, s: seq<Digit>)
    ensures DigitValue(Nothing(n) + s) == DigitValue(s)
    decreases |s|
  {
    var t := Nothing(n) + s;
    if s == [] {
      ZerosBehind([], n);
      assert t == [] + Nothing(n);
    } else {
      assert t[..|t| - 1] == Nothing(n) + s[..|s| - 1];
      ZerosAhead(n, s[..|s| - 1]);
    }
  }

  // An optional minus sign, digits, a fraction and an exponent.
  function Spelled(negative: bool, whole: seq<Digit>, fraction: seq<Digit>, exponent: int): Text {
    (if negative then [45] else [])
    + (Chars(whole) + ((if fraction == [] then [] else [46] + Chars(fraction))
    + (if exponent == 0 then []
       else if exponent < 0 then [101, 45] + Digits(-exponent)
       else [101, 43] + Digits(exponent))))
  }

  // whole.fraction times 10^exponent is the number DigitValue(x.digits) times
  // 10^(x.point - |x.digits|).
  predicate SameNumber(x: Finite, whole: seq<Digit>, fraction: seq<Digit>, exponent: int, z: nat) {
    && DigitValue(whole + fraction) == DigitValue(x.digits) * Pow10(z)
    && (x.digits != [] ==> exponent - |fraction| + z == x.point - |x.digits|)
  }

  lemma SpelledParts(x: Finite, whole: seq<Digit>, fraction: seq<Digit>, exponent: int)
    requires Whole(x) == Chars(whole) && Fraction(x) == (if fraction == [] then [] else [46] + Chars(fraction))
    requires if Scientific(x) then exponent == x.point - 1 else exponent == 0
    ensures NumberText(x) == Spelled(x.negative, whole, fraction, exponent)
  {
    hide Whole, Fraction, Chars, Digits;
  }

  // The text spells the number, with an exponent from 10^21 on and below 10^-6 only.
  lemma NumberMeans(x: Finite) returns (whole: seq<Digit>, fraction: seq<Digit>, exponent: int, z: nat)
    ensures NumberText(x) == Spelled(x.negative, whole, fraction, exponent)
    ensures SameNumber(x, whole, fraction, exponent, z)
    ensures whole != [] && (|whole| > 1 ==> whole[0] != 0)
    ensures exponent != 0 <==> x.digits != [] && (x.point > 21 || x.point <= -6)
  {
    hide Chars, Noughts, Digits, DigitValue, Pow10, NumberText, Spelled, Exponent;
    var (d, k, n) := (x.digits, |x.digits|, x.point);
    NothingMore(d);
    if k == 0 {
      whole, fraction, exponent, z := [0], [], 0, 0;
      ZeroAlone();
      assert whole + fraction == [0];
    } else if Scientific(x) {
      whole, fraction, exponent, z := d[..1], d[1..], n - 1, 0;
      assert whole + fraction == d;
    } else if k <= n {
      whole, fraction, exponent, z := d + Nothing(n - k), [], 0, n - k;
      CharsConcat(d, Nothing(n - k));
      ZeroChars(n - k);
      ZerosBehind(d, z);
      assert whole + fraction == whole;
    } else if 0 < n {
      whole, fraction, exponent, z := d[..n], d[n..], 0, 0;
      assert whole + fraction == d;
    } else {
      whole, fraction, exponent, z := [0], Nothing(-n) + d, 0, 0;
      ZeroAlone();
      SmallFraction(d, -n);
    }
    SpelledParts(x, whole, fraction, exponent);
  }

  lemma NothingMore(d: seq<Digit>)
    ensures DigitValue(d) == DigitValue(d) * Pow10(0)
  {
  }

  lemma ZeroAlone()
    ensures Chars([0]) == [ZERO] && DigitValue([0]) == DigitValue([]) * Pow10(0)
  {
    assert [0][..0] == [];
  }

  lemma SmallFraction(d: seq<Digit>, m: nat)
    ensures [DOT] + Noughts(m) + Chars(d) == [DOT] + Chars(Nothing(m) + d)
    ensures DigitValue([0] + (Nothing(m) + d)) == DigitValue(d)
  {
    CharsConcat(Nothing(m), d);
    ZeroChars(m);
    assert [0] + (Nothing(m) + d) == Nothing(m + 1) + d;
    ZerosAhead(m + 1, d);
  }

  lemma CharsConcat(a: seq<Digit>, b: seq<Digit>)
    ensures Chars(a + b) == Chars(a) + Chars(b)
  {
  }

  lemma ZeroChars(n: nat)
    ensures Chars(Nothing(n)) == Noughts(n)
  {
  }
}
