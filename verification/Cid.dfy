// gateway/src/hosting/targets.ts: cidBytesToString.
module Cid {
  import opened Bytes
  import opened Radix
  import Base32
  import Base58

  predicate IsSha256Multihash(bytes: seq<Byte>) {
    |bytes| == 34 && bytes[0] == 0x12 && bytes[1] == 0x20
  }

  function CidBytesToString(bytes: seq<Byte>): string {
    if IsSha256Multihash(bytes) then Base58.Encode(bytes) else ['b'] + Base32.Encode(bytes)
  }

  function Pow(base: nat, k: nat): (r: nat)
    ensures base > 0 ==> r > 0
    decreases k
  {
    if k == 0 then 1 else base * Pow(base, k - 1)
  }

  lemma {:induction false} PowAdd(base: nat, i: nat, j: nat)
    ensures Pow(base, i + j) == Pow(base, i) * Pow(base, j)
    decreases i
  {
    if i > 0 {
      PowAdd(base, i - 1, j);
      Reassociate(base, Pow(base, i - 1), Pow(base, j));
    }
  }

  lemma Reassociate(a: int, b: int, c: int)
    ensures a * (b * c) == (a * b) * c
  {
  }

  lemma DivBetween(n: nat, base: nat, lo: nat, hi: nat)
    requires base > 0 && base * lo <= n < base * hi
    ensures lo <= n / base < hi
  {
    var q, r := n / base, n % base;
    assert n == base * q + r;
    if q < lo {
      Grow(base, q + 1, lo);
    }
    if q >= hi {
      Grow(base, hi, q);
    }
  }

  lemma Grow(base: nat, x: int, y: int)
    requires x <= y
    ensures base * x <= base * y
  {
  }

  // The number of digits and the top digit, from the power that fits.
  lemma {:induction false} TopDigit(n: nat, base: nat, k: nat, d: nat)
    requires base > 1 && 0 < d < base
    requires Pow(base, k) * d <= n < Pow(base, k) * (d + 1)
    ensures |Digits(n, base)| == k + 1 && Digits(n, base)[k] == d
    decreases k
  {
    hide Pow;
    PowStep(base, k);
    if k > 0 {
      var p := Pow(base, k - 1);
      Reassociate(base, p, d);
      Reassociate(base, p, d + 1);
      Grow(p, 1, d);
      Grow(base, 1, p * d);
      DivBetween(n, base, p * d, p * (d + 1));
      TopDigit(n / base, base, k - 1, d);
    }
  }

  lemma PowStep(base: nat, k: nat)
    requires base > 0
    ensures Pow(base, 0) == 1 && Pow(base, k) > 0
    ensures k > 0 ==> Pow(base, k) == base * Pow(base, k - 1)
  {
  }

  // The first m digits of a big-endian number bound it.
  lemma {:induction false} ValueBounds(s: seq<nat>, base: nat, m: nat)
    requires base > 1 && DigitsOf(s, base) && m <= |s|
    ensures Value(s[..m], base) * Pow(base, |s| - m) <= Value(s, base) < (Value(s[..m], base) + 1) * Pow(base, |s| - m)
    decreases |s|
  {
    PowStep(base, |s| - m);
    if m == |s| {
      assert s[..m] == s;
    } else {
      hide Pow;
      var front, last := s[..|s| - 1], s[|s| - 1];
      assert front[..m] == s[..m] && last < base;
      ValueBounds(front, base, m);
      Scale(Value(s[..m], base), Pow(base, |front| - m), base, Value(front, base), last);
    }
  }

  lemma Scale(top: nat, p: nat, base: nat, v: nat, last: nat)
    requires top * p <= v < (top + 1) * p && last < base
    ensures top * (base * p) <= v * base + last < (top + 1) * (base * p)
  {
    assert base * (top * p) == top * (base * p) && base * ((top + 1) * p) == (top + 1) * (base * p);
    Grow(base, top * p, v);
    Grow(base, v + 1, (top + 1) * p);
  }

  const POW_58_45: nat := 22607873285027655873860657001472988373879490141498863404231658646658012170682368
  const POW_256_32: nat := 0x1_0000000000000000000000000000000000000000000000000000000000000000

  // One squaring or product at a time.
  lemma PowProduct(base: nat, i: nat, x: nat, j: nat, y: nat)
    requires Pow(base, i) == x && Pow(base, j) == y
    ensures Pow(base, i + j) == x * y
  {
    PowAdd(base, i, j);
  }

  lemma PowersOf58()
    ensures Pow(58, 45) == POW_58_45
  {
    hide Pow;
    PowStep(58, 1);
    PowProduct(58, 1, 58, 1, 58);
    PowProduct(58, 1, 58, 2, 3364);
    PowProduct(58, 2, 3364, 3, 195112);
    PowProduct(58, 5, 656356768, 5, 656356768);
    PowProduct(58, 5, 656356768, 10, 430804206899405824);
    PowProduct(58, 15, 282761256881297307761016832, 15, 282761256881297307761016832);
    PowProduct(58, 15, 282761256881297307761016832, 30, 79953928393091004080532279173738402825689466587316224);
  }

  lemma PowersOf256()
    ensures Pow(256, 32) == POW_256_32
  {
    hide Pow;
    PowStep(256, 1);
    PowProduct(256, 1, 0x100, 1, 0x100);
    PowProduct(256, 2, 0x1_0000, 2, 0x1_0000);
    PowProduct(256, 4, 0x1_0000_0000, 4, 0x1_0000_0000);
    PowProduct(256, 8, 0x1_0000_0000_0000_0000, 8, 0x1_0000_0000_0000_0000);
    PowProduct(256, 16, 0x1_0000_0000_0000_0000_0000_0000_0000_0000, 16, 0x1_0000_0000_0000_0000_0000_0000_0000_0000);
  }

  // Text of the first kind starts with Q.
  lemma MultihashStartsWithQ(bytes: seq<Byte>)
    requires IsSha256Multihash(bytes)
    ensures |CidBytesToString(bytes)| == 46 && CidBytesToString(bytes)[0] == 'Q'
  {
    hide Value, Pow, Base58.Letters, Base58.ALPHABET;
    ValueBounds(bytes, 256, 2);
    TopTwo(bytes);
    PowersOf58();
    PowersOf256();
    var n := Value(bytes, 256);
    assert Pow(58, 45) * 23 <= n < Pow(58, 45) * 24;
    TopDigit(n, 58, 45, 23);
    assert LeadingZeros(bytes) == 0;
    ConvertShape(bytes, 256, 58);
    var digits := Convert(bytes, 256, 58);
    assert digits == Reverse(Digits(n, 58));
    LetterQ();
  }

  lemma TopTwo(bytes: seq<Byte>)
    requires IsSha256Multihash(bytes)
    ensures Value(bytes[..2], 256) == 0x1220
  {
    var s: seq<nat> := bytes[..2];
    assert s[..1] == [bytes[0]] && s[..1][..0] == [];
    assert Value(s[..1], 256) == 0x12;
  }

  lemma LetterQ()
    ensures Base58.Letter(23) == 'Q'
  {
    Base58.LetterIndexed(23);
    Base58.AlphabetIndexed('Q');
  }

  // Two identifiers never share their text.
  lemma CidsDistinct(a: seq<Byte>, b: seq<Byte>)
    ensures CidBytesToString(a) == CidBytesToString(b) <==> a == b
  {
    if CidBytesToString(a) == CidBytesToString(b) {
      if IsSha256Multihash(a) {
        MultihashStartsWithQ(a);
      }
      if IsSha256Multihash(b) {
        MultihashStartsWithQ(b);
      }
      if IsSha256Multihash(a) {
        Base58.BytesRoundTrip(a);
        Base58.BytesRoundTrip(b);
      } else {
        assert CidBytesToString(a)[1..] == Base32.Encode(a) && CidBytesToString(b)[1..] == Base32.Encode(b);
        Base32.EncodeInjective(a, b);
      }
    }
  }

  // A 34-byte sha2-256 multihash is written in base 58, anything else as b and base 32.
  lemma FormsExactly(bytes: seq<Byte>)
    ensures |bytes| == 34 && bytes[0] == 0x12 && bytes[1] == 0x20 ==> CidBytesToString(bytes) == Base58.Encode(bytes)
    ensures !(|bytes| == 34 && bytes[0] == 0x12 && bytes[1] == 0x20) ==>
              CidBytesToString(bytes)[0] == 'b' && CidBytesToString(bytes)[1..] == Base32.Encode(bytes)
  {
  }
}
