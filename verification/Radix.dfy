// Positional numbers held as digit lists, least significant digit first, and the carry loops
// that multiply such a list in place.
module Radix {
  import opened Bytes

  // The canonical digits of n: no zero on top, except for zero itself.
  function Digits(n: nat, base: nat): (r: seq<nat>)
    requires base > 1
    ensures r != [] && (forall i :: 0 <= i < |r| ==> r[i] < base)
    ensures n > 0 ==> r[|r| - 1] > 0
    decreases n
  {
    if n < base then [n]
    else
      DivShrinks(n, base);
      [n % base] + Digits(n / base, base)
  }

  lemma DivShrinks(n: nat, base: nat)
    requires base > 1 && n >= base
    ensures 0 < n / base < n
  {
    var q, r := n / base, n % base;
    assert n == base * q + r;
    Product(base, q);
  }

  lemma Product(base: nat, q: int)
    requires base > 1
    ensures q <= 0 ==> base * q <= 0
    ensures q > 0 ==> base * q >= 2 * q
  {
  }

  // while (carry > 0) { push(carry % base); carry = floor(carry / base); }
  function Push(carry: nat, base: nat): (r: seq<nat>)
    requires base > 1
    decreases carry
  {
    if carry == 0 then []
    else if carry < base then [carry]
    else
      DivShrinks(carry, base);
      [carry % base] + Push(carry / base, base)
  }

  // One pass over the digits: digit * mul + carry, then what is left is pushed.
  function CarryPass(digits: seq<nat>, mul: nat, base: nat, carry: nat): seq<nat>
    requires base > 1
    decreases |digits|
  {
    if digits == [] then Push(carry, base)
    else
      var val := digits[0] * mul + carry;
      [val % base] + CarryPass(digits[1..], mul, base, val / base)
  }

  lemma {:induction false} PushIsDigits(carry: nat, base: nat)
    requires base > 1 && carry > 0
    ensures Push(carry, base) == Digits(carry, base)
    decreases carry
  {
    if carry >= base {
      DivShrinks(carry, base);
      PushIsDigits(carry / base, base);
    }
  }

  lemma StepSplit(n: nat, mul: nat, base: nat, carry: nat)
    requires base > 1
    ensures var val := (n % base) * mul + carry; var m := n * mul + carry;
            m % base == val % base && m / base == (n / base) * mul + val / base
  {
    var val, m, q := (n % base) * mul + carry, n * mul + carry, n / base;
    assert n == base * q + n % base;
    assert val == base * (val / base) + val % base;
    assert (base * q) * mul == (q * mul) * base;
    assert m == (base * q + n % base) * mul + carry == (base * q) * mul + val;
    assert (q * mul + val / base) * base == (q * mul) * base + (val / base) * base;
    DivModUnique(m, base, q * mul + val / base, val % base);
  }

  lemma DigitsUnfold(m: nat, base: nat, low: nat, high: nat)
    requires base > 1 && m >= base && m % base == low && m / base == high
    ensures Digits(m, base) == [low] + Digits(high, base)
  {
    DivShrinks(m, base);
  }

  lemma StepUnfold(low: nat, rest: seq<nat>, mul: nat, base: nat, carry: nat, val: nat)
    requires base > 1 && val == low * mul + carry
    ensures val / base >= 0
    ensures CarryPass([low] + rest, mul, base, carry) == [val % base] + CarryPass(rest, mul, base, val / base)
  {
    assert ([low] + rest)[1..] == rest;
  }

  // The carry loop turns the canonical digits of n into those of n * mul + carry.
  lemma {:induction false} StepIsMulAdd(n: nat, mul: nat, base: nat, carry: nat)
    requires base > 1 && mul > 0
    ensures CarryPass(Digits(n, base), mul, base, carry) == Digits(n * mul + carry, base)
    decreases n
  {
    if n < base {
      var val := n * mul + carry;
      assert Digits(n, base) == [n] + [];
      StepUnfold(n, [], mul, base, carry, val);
      LowDigit(val, base);
    } else {
      var low, high := n % base, n / base;
      var val, m := low * mul + carry, n * mul + carry;
      DivShrinks(n, base);
      DigitsUnfold(n, base, low, high);
      StepUnfold(low, Digits(high, base), mul, base, carry, val);
      StepIsMulAdd(high, mul, base, val / base);
      StepSplit(n, mul, base, carry);
      MulGrows(n, mul);
      DigitsUnfold(m, base, val % base, high * mul + val / base);
    }
  }

  lemma MulGrows(n: nat, mul: nat)
    requires mul > 0
    ensures n * mul >= n
  {
  }

  lemma LowDigit(val: nat, base: nat)
    requires base > 1
    ensures [val % base] + Push(val / base, base) == Digits(val, base)
  {
    if val < base {
      assert val / base == 0 && val % base == val;
    } else {
      DivShrinks(val, base);
      PushIsDigits(val / base, base);
    }
  }

  // Most significant digit first.
  function Value(s: seq<nat>, base: nat): nat {
    if s == [] then 0 else Value(s[..|s| - 1], base) * base + s[|s| - 1]
  }

  function Reverse<T>(s: seq<T>): (r: seq<T>)
    ensures |r| == |s| && forall i :: 0 <= i < |s| ==> r[i] == s[|s| - 1 - i]
  {
    seq(|s|, i requires 0 <= i < |s| => s[|s| - 1 - i])
  }

  function LeadingZeros(s: seq<nat>): (n: nat)
    ensures n <= |s| && (forall i :: 0 <= i < n ==> s[i] == 0) && (n < |s| ==> s[n] != 0)
  {
    if s == [] || s[0] != 0 then 0
    else
      var n := LeadingZeros(s[1..]);
      assert forall i :: 0 < i < 1 + n ==> s[i] == s[1..][i - 1];
      1 + n
  }

  lemma LeadingZerosUnique(s: seq<nat>, n: nat)
    requires n < |s| && (forall i :: 0 <= i < n ==> s[i] == 0) && s[n] != 0
    ensures LeadingZeros(s) == n
  {
  }

  lemma {:induction false} ValueOfZeros(n: nat, s: seq<nat>, base: nat)
    ensures Value(Zeros(n) + s, base) == Value(s, base)
    decreases n + |s|
  {
    var t := Zeros(n) + s;
    if s != [] {
      assert t[..|t| - 1] == Zeros(n) + s[..|s| - 1];
      ValueOfZeros(n, s[..|s| - 1], base);
    } else if n > 0 {
      assert t[..|t| - 1] == Zeros(n - 1) + [];
      ValueOfZeros(n - 1, [], base);
    }
  }

  predicate DigitsOf(s: seq<nat>, base: nat) {
    forall i :: 0 <= i < |s| ==> s[i] < base
  }

  // A digit list without leading zeros is, reversed, the canonical digits of its value.
  lemma {:induction false} CanonicalDigits(s: seq<nat>, base: nat)
    requires base > 1 && s != [] && DigitsOf(s, base) && s[0] != 0
    ensures Value(s, base) > 0 && Reverse(Digits(Value(s, base), base)) == s
    decreases |s|
  {
    var front, last := s[..|s| - 1], s[|s| - 1];
    var n := Value(s, base);
    if |s| == 1 {
      assert Value(front, base) == 0;
      assert n == last;
      assert Reverse([last]) == s;
    } else {
      CanonicalDigits(front, base);
      var m := Value(front, base);
      DivModUnique(n, base, m, last);
      MulAtLeast(m, base);
      assert Digits(n, base) == [last] + Digits(m, base);
      ReverseCons(last, Digits(m, base));
      assert s == front + [last];
    }
  }

  lemma ReverseCons<T>(x: T, s: seq<T>)
    ensures Reverse([x] + s) == Reverse(s) + [x]
  {
  }

  lemma ValuePush(s: seq<nat>, x: nat, base: nat)
    ensures Value(s + [x], base) == Value(s, base) * base + x
  {
    assert (s + [x])[..|s|] == s;
  }

  lemma ValueStep(n: nat, base: nat, low: nat, high: nat)
    requires base > 1 && n >= base && low == n % base && high == n / base
    ensures Value(Reverse(Digits(n, base)), base) == Value(Reverse(Digits(high, base)), base) * base + low
  {
    hide Value;
    hide Reverse;
    hide Digits;
    DigitsUnfold(n, base, low, high);
    ReverseCons(low, Digits(high, base));
    ValuePush(Reverse(Digits(high, base)), low, base);
  }

  lemma {:induction false} ValueOfDigits(n: nat, base: nat)
    requires base > 1
    ensures Value(Reverse(Digits(n, base)), base) == n
    decreases n
  {
    hide Value, Reverse, Digits;
    if n < base {
      OneDigit(n, base);
    } else {
      var low, high := n % base, n / base;
      DivShrinks(n, base);
      DivModSum(n, base);
      ValueStep(n, base, low, high);
      ValueOfDigits(high, base);
    }
  }

  lemma OneDigit(n: nat, base: nat)
    requires base > 1 && n < base
    ensures Value(Reverse(Digits(n, base)), base) == n
  {
    assert Digits(n, base) == [n];
    assert Value([], base) == 0;
    hide Digits, Value;
    assert Reverse([n]) == [] + [n];
    ValuePush([], n, base);
    NoTimes(base);
  }

  lemma NoTimes(base: nat)
    ensures 0 * base == 0
  {
  }

  lemma ZerosAndRest(s: seq<nat>)
    ensures var n := LeadingZeros(s); s == Zeros(n) + s[n..]
  {
  }

  lemma {:induction false} ValueOfAllZeros(s: seq<nat>, base: nat)
    requires LeadingZeros(s) == |s|
    ensures Value(s, base) == 0
  {
    ZerosAndRest(s);
    ValueOfZeros(|s|, [], base);
    assert Zeros(|s|) + [] == s;
  }

  // Rewriting a number with a non-zero digit in another base and keeping its leading zeros.
  function Convert(s: seq<nat>, from: nat, to: nat): seq<nat>
    requires to > 1
  {
    Zeros(LeadingZeros(s)) + Reverse(Digits(Value(s, from), to))
  }

  lemma ConvertShape(s: seq<nat>, from: nat, to: nat)
    requires from > 1 && to > 1 && DigitsOf(s, from)
    ensures var t := Convert(s, from, to);
            && DigitsOf(t, to) && Value(t, to) == Value(s, from)
            && (LeadingZeros(s) < |s| ==> LeadingZeros(t) == LeadingZeros(s) < |t| && Value(s, from) > 0)
            && (LeadingZeros(s) == |s| ==> t == Zeros(|s| + 1))
  {
    hide Value;
    var k, n := LeadingZeros(s), Value(s, from);
    var digits := Digits(n, to);
    var t := Convert(s, from, to);
    ValueOfZeros(k, Reverse(digits), to);
    ValueOfDigits(n, to);
    if k < |s| {
      Significant(s, from);
      assert t[k] == digits[|digits| - 1];
      LeadingZerosUnique(t, k);
    } else {
      ValueOfAllZeros(s, from);
      assert digits == [0] && Reverse(digits) == [0];
    }
  }

  lemma Significant(s: seq<nat>, base: nat)
    requires base > 1 && DigitsOf(s, base) && LeadingZeros(s) < |s|
    ensures Value(s, base) > 0
    ensures Zeros(LeadingZeros(s)) + Reverse(Digits(Value(s, base), base)) == s
  {
    var k := LeadingZeros(s);
    ZerosAndRest(s);
    ValueOfZeros(k, s[k..], base);
    CanonicalDigits(s[k..], base);
  }

  // Converting there and back is the identity exactly on lists with a non-zero digit.
  lemma ConvertRoundTrip(s: seq<nat>, from: nat, to: nat)
    requires from > 1 && to > 1 && DigitsOf(s, from)
    ensures Convert(Convert(s, from, to), to, from) == s <==> LeadingZeros(s) < |s|
    ensures LeadingZeros(s) == |s| ==> Convert(Convert(s, from, to), to, from) == Zeros(|s| + 2)
  {
    hide Value;
    hide Digits;
    hide Reverse;
    ConvertShape(s, from, to);
    if LeadingZeros(s) < |s| {
      Significant(s, from);
    } else {
      var t := Convert(s, from, to);
      LeadingAll(|s| + 1);
      ConvertShape(t, to, from);
      assert |s| == |Zeros(|s| + 2)| - 2;
    }
  }

  lemma LeadingAll(n: nat)
    ensures LeadingZeros(Zeros(n)) == n
  {
  }
}
