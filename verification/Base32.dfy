// base32LowerNoPad of gateway/src/hosting/targets.ts.
module Base32 {
  import Sorting
  import opened Bytes
  import opened Radix
  import Base58

  const ALPHABET := "abcdefghijklmnopqrstuvwxyz" + "234567"

  // ---------- section 6 of RFC 4648, on bits ----------

  function BitsOf(b: Byte): (r: seq<nat>)
    ensures |r| == 8 && DigitsOf(r, 2)
  {
    [b / 128, b / 64 % 2, b / 32 % 2, b / 16 % 2, b / 8 % 2, b / 4 % 2, b / 2 % 2, b % 2]
  }

  function Bits(bytes: seq<Byte>): (r: seq<nat>)
    ensures |r| == 8 * |bytes| && DigitsOf(r, 2)
  {
    if bytes == [] then [] else BitsOf(bytes[0]) + Bits(bytes[1..])
  }

  // Groups of five bits, most significant first; the last group is filled with zero bits.
  function Quintets(bits: seq<nat>): (r: seq<nat>)
    requires DigitsOf(bits, 2)
    ensures |r| == (|bits| + 4) / 5 && DigitsOf(r, 32)
  {
    if bits == [] then []
    else if |bits| < 5 then
      FiveBits(bits + Zeros(5 - |bits|));
      [Value(bits + Zeros(5 - |bits|), 2)]
    else
      FiveBits(bits[..5]);
      [Value(bits[..5], 2)] + Quintets(bits[5..])
  }

  lemma ValueFive(s: seq<nat>)
    requires |s| == 5
    ensures Value(s, 2) == 16 * s[0] + 8 * s[1] + 4 * s[2] + 2 * s[3] + s[4]
  {
    ValueShort(s[..1], []);
    assert s[..4][..3] == s[..3] && s[..3][..2] == s[..2] && s[..2][..1] == s[..1];
    assert Value(s[..1], 2) == s[0] by { assert s[..1][..0] == []; }
    assert Value(s[..2], 2) == 2 * Value(s[..1], 2) + s[1];
    assert Value(s[..3], 2) == 2 * Value(s[..2], 2) + s[2];
    assert Value(s[..4], 2) == 2 * Value(s[..3], 2) + s[3];
  }

  lemma ValueShort(s: seq<nat>, t: seq<nat>)
    ensures Value(s + [], 2) == Value(s, 2)
  {
    assert s + [] == s;
  }

  lemma FiveBits(s: seq<nat>)
    requires |s| == 5 && DigitsOf(s, 2)
    ensures Value(s, 2) < 32
  {
    ValueFive(s);
  }

  function Letter(d: nat): char
    requires d < 32
  {
    ALPHABET[d]
  }

  function Letters(digits: seq<nat>): (r: string)
    requires DigitsOf(digits, 32)
    ensures |r| == |digits| && forall i :: 0 <= i < |r| ==> r[i] == Letter(digits[i])
  {
    seq(|digits|, i requires 0 <= i < |digits| => Letter(digits[i]))
  }

  function Encode(bytes: seq<Byte>): string {
    Letters(Quintets(Bits(bytes)))
  }

  // ---------- the loop: a 32-bit accumulator that is never masked ----------

  lemma Pow2Values()
    ensures Pow2(0) == 1 && Pow2(1) == 2 && Pow2(2) == 4 && Pow2(3) == 8 && Pow2(4) == 16 && Pow2(5) == 32
    ensures Pow2(6) == 64 && Pow2(7) == 128 && Pow2(8) == 256 && Pow2(9) == 512 && Pow2(10) == 1024
    ensures Pow2(11) == 2048 && Pow2(12) == 4096
  {
    assert Pow2(6) == 64;
    assert Pow2(9) == 512;
  }

  // The low bits of the accumulator are the pending bits.
  predicate Holds(value: nat, pending: seq<nat>) {
    value < U32 && |pending| <= 12 && value % Pow2(|pending|) == Value(pending, 2)
  }

  lemma Distribute(a: nat, b: nat, c: nat, x: nat)
    ensures (a * b + c) * 2 + x == a * (2 * b) + (c * 2 + x)
  {
  }

  lemma Pow2Next(k: nat)
    ensures Pow2(k + 1) == 2 * Pow2(k)
  {
  }

  lemma {:induction false} ValueConcat(s: seq<nat>, t: seq<nat>)
    requires DigitsOf(t, 2)
    ensures Value(s + t, 2) == Value(s, 2) * Pow2(|t|) + Value(t, 2) && Value(t, 2) < Pow2(|t|)
    decreases |t|
  {
    if t == [] {
      assert s + t == s;
    } else {
      hide Value, Pow2;
      var front, last := t[..|t| - 1], t[|t| - 1];
      ValueConcat(s, front);
      Pow2Next(|front|);
      assert s + t == (s + front) + [last] && t == front + [last];
      ValuePush(s + front, last, 2);
      ValuePush(front, last, 2);
      Distribute(Value(s, 2), Pow2(|front|), Value(front, 2), last);
    }
  }

  lemma ValueByte(b: Byte)
    ensures Value(BitsOf(b), 2) == b
  {
    hide Value;
    var s := BitsOf(b);
    var hi, lo := [s[0], s[1], s[2]], [s[3], s[4], s[5], s[6], s[7]];
    assert s == hi + lo;
    ValueConcat(hi, lo);
    ValueFive(lo);
    ValueThree(s[0], s[1], s[2]);
    Pow2Values();
    BitSum(b);
  }

  lemma ValueThree(x: nat, y: nat, z: nat)
    ensures Value([x, y, z], 2) == 4 * x + 2 * y + z
  {
    assert [x, y, z] == [x, y] + [z] && [x, y] == [x] + [y] && [x] == [] + [x];
    ValuePush([x, y], z, 2);
    ValuePush([x], y, 2);
    ValuePush([], x, 2);
  }

  lemma BitSum(b: Byte)
    ensures b == 128 * (b / 128) + 64 * (b / 64 % 2) + 32 * (b / 32 % 2) + 16 * (b / 16 % 2)
                 + 8 * (b / 8 % 2) + 4 * (b / 4 % 2) + 2 * (b / 2 % 2) + b % 2
  {
    assert b / 4 == (b / 2) / 2 && b / 8 == (b / 4) / 2 && b / 16 == (b / 8) / 2 && b / 32 == (b / 16) / 2;
    assert b / 64 == (b / 32) / 2 && b / 128 == (b / 64) / 2;
  }

  lemma RemainderOfRemainder(w: nat, k: nat, m: nat)
    requires k > 0 && m > 0 && k * m > 0
    ensures w % (k * m) % m == w % m
  {
    var r, t := w % (k * m), w / (k * m);
    DivModSum(w, k * m);
    DivModSum(r, m);
    assert t * (k * m) == (t * k) * m;
    assert (t * k) * m + (r / m) * m == (t * k + r / m) * m;
    DivModUnique(w, m, t * k + r / m, r % m);
  }

  lemma ShiftedRemainder(value: nat, b: Byte, p: nat)
    requires p in [1, 2, 4, 8, 16]
    ensures (value * 256 + b) % U32 % (p * 256) == value % p * 256 + b
  {
    var w := value * 256 + b;
    DivModSum(value, p);
    var t, r := value / p, value % p;
    assert (t * p + r) * 256 + b == t * (p * 256) + (r * 256 + b);
    DivModUnique(w, p * 256, t, r * 256 + b);
    var k := if p == 1 then 0x100_0000 else if p == 2 then 0x80_0000 else if p == 4 then 0x40_0000
             else if p == 8 then 0x20_0000 else 0x10_0000;
    assert U32 == k * (p * 256);
    RemainderOfRemainder(w, k, p * 256);
  }

  lemma ShiftIn(value: nat, pending: seq<nat>, b: Byte)
    requires Holds(value, pending) && |pending| < 5
    ensures Holds((value * 256 + b) % U32, pending + BitsOf(b))
  {
    hide Value;
    hide BitsOf;
    ValueConcat(pending, BitsOf(b));
    ValueByte(b);
    Pow2Values();
    ShiftedRemainder(value, b, Pow2(|pending|));
  }

  lemma TopFive(value: nat, hi: nat, lo: nat, q: nat)
    requires q > 0 && hi < 32 && lo < q && value % (32 * q) == hi * q + lo
    ensures value / q % 32 == hi && value % q == lo
  {
    var t := value / (32 * q);
    DivModSum(value, 32 * q);
    assert t * (32 * q) + hi * q == (t * 32 + hi) * q;
    DivModUnique(value, q, t * 32 + hi, lo);
  }

  lemma Pow2Five(m: nat)
    ensures Pow2(m + 5) == 32 * Pow2(m)
  {
    assert Pow2(m + 5) == 2 * Pow2(m + 4) && Pow2(m + 4) == 2 * Pow2(m + 3) && Pow2(m + 3) == 2 * Pow2(m + 2);
    assert Pow2(m + 2) == 2 * Pow2(m + 1) && Pow2(m + 1) == 2 * Pow2(m);
  }

  // Reading five bits off the top of the pending ones.
  lemma TakeFive(value: nat, pending: seq<nat>)
    requires Holds(value, pending) && |pending| >= 5 && DigitsOf(pending, 2)
    ensures value / Pow2(|pending| - 5) % 32 == Value(pending[..5], 2)
    ensures Holds(value, pending[5..])
  {
    hide Value, Pow2;
    var m := |pending| - 5;
    assert pending == pending[..5] + pending[5..];
    ValueConcat(pending[..5], pending[5..]);
    FiveBits(pending[..5]);
    Pow2Five(m);
    TopFive(value, Value(pending[..5], 2), Value(pending[5..], 2), Pow2(m));
  }

  lemma Padded(value: nat, lo: nat, p: nat, q: nat)
    requires (p, q) in [(2, 16), (4, 8), (8, 4), (16, 2)] && value % p == lo
    ensures value * q % 32 == lo * q
  {
    if p == 2 {
    } else if p == 4 {
    } else if p == 8 {
    }
  }

  lemma PadFive(value: nat, pending: seq<nat>)
    requires Holds(value, pending) && 0 < |pending| < 5 && DigitsOf(pending, 2)
    ensures value * Pow2(5 - |pending|) % 32 == Value(pending + Zeros(5 - |pending|), 2)
  {
    var z := Zeros(5 - |pending|);
    ValueConcat(pending, z);
    ValueOfZeros(5 - |pending|, [], 2);
    assert z + [] == z && Value([], 2) == 0;
    hide Value;
    Pow2Values();
    Padded(value, Value(pending, 2), Pow2(|pending|), Pow2(5 - |pending|));
  }

  lemma QuintetsTake(pending: seq<nat>, rest: seq<nat>)
    requires DigitsOf(pending, 2) && DigitsOf(rest, 2) && |pending| >= 5
    ensures Quintets(pending + rest) == [Value(pending[..5], 2)] + Quintets(pending[5..] + rest)
  {
    hide Value;
    hide Quintets;
    var bits := pending + rest;
    assert bits[..5] == pending[..5];
    assert bits[5..] == pending[5..] + rest;
    QuintetsUnfold(bits);
  }

  lemma QuintetsUnfold(bits: seq<nat>)
    requires DigitsOf(bits, 2) && |bits| >= 5
    ensures Quintets(bits) == [Value(bits[..5], 2)] + Quintets(bits[5..])
  {
  }

  lemma QuintetsShort(bits: seq<nat>)
    requires DigitsOf(bits, 2) && |bits| < 5
    ensures Quintets(bits) == if bits == [] then [] else [Value(bits + Zeros(5 - |bits|), 2)]
  {
  }

  lemma LettersPush(s: seq<nat>, d: nat)
    requires DigitsOf(s, 32) && d < 32
    ensures Letters(s + [d]) == Letters(s) + [ALPHABET[d]]
  {
  }

  method Base32LowerNoPad(bytes: seq<Byte>) returns (out: string)
    ensures out == Encode(bytes)
  {
    hide Value;
    hide Quintets;
    hide Holds;
    hide BitsOf;
    hide Pow2;
    out := "";
    var bits: nat, value: nat := 0, 0;
    ghost var digits: seq<nat>, pending: seq<nat> := [], [];
    HoldsNothing();
    StartState(bytes);
    for k := 0 to |bytes|
      invariant DigitsOf(digits, 32) && out == Letters(digits)
      invariant DigitsOf(pending, 2) && bits == |pending| < 5 && Holds(value, pending)
      invariant Quintets(Bits(bytes)) == digits + Quintets(pending + Bits(bytes[k..]))
    {
      var byte := bytes[k];
      ShiftIn(value, pending, byte);
      NextByte(pending, bytes, k);
      value := (value * 256 + byte) % U32;
      bits := bits + 8;
      pending := pending + BitsOf(byte);
      while bits >= 5
        invariant DigitsOf(digits, 32) && out == Letters(digits)
        invariant DigitsOf(pending, 2) && 0 <= bits == |pending| <= 12 && Holds(value, pending)
        invariant Quintets(Bits(bytes)) == digits + Quintets(pending + Bits(bytes[k + 1..]))
      {
        var d := value / Pow2(bits - 5) % 32;
        TakeFive(value, pending);
        QuintetsTake(pending, Bits(bytes[k + 1..]));
        Sorting.ConcatAssociative(digits, [d], Quintets(pending[5..] + Bits(bytes[k + 1..])));
        LettersPush(digits, d);
        out := out + [ALPHABET[d]];
        bits := bits - 5;
        digits, pending := digits + [d], pending[5..];
      }
    }
    NothingLeft(pending, bytes);
    EndState(digits, pending);
    if bits > 0 {
      PadFive(value, pending);
      FiveBits(pending + Zeros(5 - |pending|));
      var d := value * Pow2(5 - bits) % 32;
      LettersPush(digits, d);
      out := out + [ALPHABET[d]];
    }
  }

  lemma HoldsNothing()
    ensures Holds(0, [])
  {
    Pow2Values();
  }

  lemma StartState(bytes: seq<Byte>)
    ensures Quintets(Bits(bytes)) == [] + Quintets([] + Bits(bytes[0..]))
  {
    assert bytes[0..] == bytes;
    assert [] + Bits(bytes) == Bits(bytes);
    assert [] + Quintets(Bits(bytes)) == Quintets(Bits(bytes));
  }

  lemma NextByte(pending: seq<nat>, bytes: seq<Byte>, k: nat)
    requires k < |bytes|
    ensures pending + Bits(bytes[k..]) == (pending + BitsOf(bytes[k])) + Bits(bytes[k + 1..])
  {
    assert bytes[k..][1..] == bytes[k + 1..];
  }

  lemma NothingLeft(pending: seq<nat>, bytes: seq<Byte>)
    ensures pending + Bits(bytes[|bytes|..]) == pending
  {
    assert bytes[|bytes|..] == [];
  }

  lemma EndState(digits: seq<nat>, pending: seq<nat>)
    requires DigitsOf(pending, 2) && |pending| < 5
    ensures pending == [] ==> digits + Quintets(pending) == digits
    ensures pending != [] ==> digits + Quintets(pending) == digits + [Value(pending + Zeros(5 - |pending|), 2)]
  {
    hide Value;
    QuintetsShort(pending);
  }

  // ---------- length and injectivity ----------

  lemma EncodedLength(bytes: seq<Byte>)
    ensures |Encode(bytes)| == (8 * |bytes| + 4) / 5
  {
  }

  lemma LetterUnique(d: nat, e: nat)
    requires d < 32 && e < 32 && Letter(d) == Letter(e)
    ensures d == e
  {
    assert Base58.Run('a', 26) == "abcdefghijklmnopqrstuvwxyz";
    assert Base58.Run('2', 6) == "234567";
    assert ALPHABET == Base58.Run('a', 26) + Base58.Run('2', 6);
  }

  lemma FiveBitsUnique(s: seq<nat>, t: seq<nat>)
    requires |s| == |t| == 5 && DigitsOf(s, 2) && DigitsOf(t, 2) && Value(s, 2) == Value(t, 2)
    ensures s == t
  {
    ValueFive(s);
    ValueFive(t);
  }

  lemma {:induction false} QuintetsUnique(s: seq<nat>, t: seq<nat>)
    requires DigitsOf(s, 2) && DigitsOf(t, 2) && |s| == |t| && Quintets(s) == Quintets(t)
    ensures s == t
    decreases |s|
  {
    if 0 < |s| < 5 {
      var z := Zeros(5 - |s|);
      assert Quintets(s)[0] == Quintets(t)[0];
      FiveBitsUnique(s + z, t + z);
      assert s == (s + z)[..|s|] && t == (t + z)[..|t|];
    } else if s != [] {
      assert Quintets(s)[0] == Quintets(t)[0];
      FiveBitsUnique(s[..5], t[..5]);
      assert Quintets(s)[1..] == Quintets(s[5..]) && Quintets(t)[1..] == Quintets(t[5..]);
      QuintetsUnique(s[5..], t[5..]);
      assert s == s[..5] + s[5..] && t == t[..5] + t[5..];
    }
  }

  lemma {:induction false} BitsUnique(a: seq<Byte>, b: seq<Byte>)
    requires Bits(a) == Bits(b)
    ensures a == b
  {
    assert |a| == |b|;
    if a != [] {
      assert Bits(a)[..8] == BitsOf(a[0]) && Bits(b)[..8] == BitsOf(b[0]);
      assert Bits(a)[8..] == Bits(a[1..]) && Bits(b)[8..] == Bits(b[1..]);
      ValueByte(a[0]);
      ValueByte(b[0]);
      BitsUnique(a[1..], b[1..]);
    }
  }

  lemma LettersUnique(s: seq<nat>, t: seq<nat>)
    requires DigitsOf(s, 32) && DigitsOf(t, 32) && Letters(s) == Letters(t)
    ensures s == t
  {
    hide Letter;
    forall i | 0 <= i < |s| ensures s[i] == t[i] {
      assert Letters(s)[i] == Letters(t)[i];
      LetterUnique(s[i], t[i]);
    }
  }

  lemma SameCount(m: nat, n: nat)
    requires (8 * m + 4) / 5 == (8 * n + 4) / 5
    ensures m == n
  {
  }

  lemma EncodeInjective(a: seq<Byte>, b: seq<Byte>)
    requires Encode(a) == Encode(b)
    ensures a == b
  {
    hide Quintets, Bits, Letters;
    LettersUnique(Quintets(Bits(a)), Quintets(Bits(b)));
    SameCount(|a|, |b|);
    QuintetsUnique(Bits(a), Bits(b));
    BitsUnique(a, b);
  }

  // ---------- what the text says, letter by letter ----------

  lemma {:induction false} Pow2Add(i: nat, j: nat)
    ensures Pow2(i + j) == Pow2(i) * Pow2(j)
  {
    if i > 0 {
      Pow2Add(i - 1, j);
    }
  }

  // The first digit counts most.
  lemma {:induction false} ValueFront(x: nat, s: seq<nat>, k: nat)
    ensures Value([x] + s, Pow2(k)) == x * Pow2(k * |s|) + Value(s, Pow2(k))
    decreases |s|
  {
    var t := [x] + s;
    if s == [] {
      assert t[..0] == [] && Value([], Pow2(k)) == 0;
      assert Value(t, Pow2(k)) == Value(t[..0], Pow2(k)) * Pow2(k) + x;
    } else {
      var front, last := s[..|s| - 1], s[|s| - 1];
      assert t[..|t| - 1] == [x] + front;
      ValueFront(x, front, k);
      assert k * |s| == k * |front| + k;
      Pow2Add(k * |front|, k);
      ScaleFront(x, Pow2(k * |front|), Value(front, Pow2(k)), Pow2(k), last);
    }
  }

  lemma ScaleFront(x: nat, p: nat, v: nat, b: nat, last: nat)
    ensures (x * p + v) * b + last == x * (p * b) + (v * b + last)
  {
  }

  // The bits of the bytes are the number the bytes are.
  lemma {:induction false} BitsAreNumber(bytes: seq<Byte>)
    ensures Value(Bits(bytes), 2) == Value(bytes, 256)
  {
    Pow2Values();
    if bytes != [] {
      var b, rest := bytes[0], bytes[1..];
      hide Value, BitsOf, Pow2;
      BitsAreNumber(rest);
      ValueByte(b);
      ValueConcat(BitsOf(b), Bits(rest));
      ValueFront(b, rest, 8);
      assert bytes == [b] + rest;
    }
  }

  lemma LastQuintet(bits: seq<nat>)
    requires DigitsOf(bits, 2) && 0 < |bits| < 5
    ensures Value(Quintets(bits), 32) == Value(bits, 2) * Pow2(5 * |Quintets(bits)| - |bits|)
  {
    var z := Zeros(5 - |bits|);
    var v := Value(bits + z, 2);
    assert Quintets(bits) == [v];
    hide Value, Pow2, Quintets;
    ValueConcat(bits, z);
    ValueOfZeros(5 - |bits|, [], 2);
    assert z + [] == z;
    ValueOfNone(v);
  }

  lemma ValueOfNone(v: nat)
    ensures Value([], 2) == 0 && Value([v], 32) == v
  {
    assert [v][..0] == [];
    assert Value([], 32) == 0;
  }

  lemma {:induction false} QuintetsAreNumber(bits: seq<nat>)
    requires DigitsOf(bits, 2)
    ensures Value(Quintets(bits), 32) == Value(bits, 2) * Pow2(5 * |Quintets(bits)| - |bits|)
    decreases |bits|
  {
    Pow2Values();
    if 0 < |bits| < 5 {
      LastQuintet(bits);
    } else if bits != [] {
      var head, rest := bits[..5], bits[5..];
      assert bits == head + rest;
      QuintetsAreNumber(rest);
      hide Value, Pow2, Quintets;
      QuintetsUnfold(bits);
      var v, q := Value(head, 2), Quintets(rest);
      ValueFront(v, q, 5);
      ValueConcat(head, rest);
      Pow2Add(|rest|, 5 * |q| - |rest|);
      ShiftSum(v, Pow2(|rest|), Value(rest, 2), Pow2(5 * |q| - |rest|));
    }
  }

  lemma ShiftSum(v: nat, p: nat, w: nat, s: nat)
    ensures v * (p * s) + w * s == (v * p + w) * s
  {
  }

  // The letters are the base-32 digits of the number the bytes are, shifted by the fill bits.
  lemma EncodeMeans(bytes: seq<Byte>) returns (digits: seq<nat>)
    ensures |digits| == |Encode(bytes)| && forall i :: 0 <= i < |digits| ==>
              digits[i] < 32 && Encode(bytes)[i] == "abcdefghijklmnopqrstuvwxyz234567"[digits[i]]
    ensures 0 <= 5 * |digits| - 8 * |bytes| < 5
    ensures Value(digits, 32) == Value(bytes, 256) * Pow2(5 * |digits| - 8 * |bytes|)
  {
    hide Value, Quintets, Bits;
    digits := Quintets(Bits(bytes));
    BitsAreNumber(bytes);
    QuintetsAreNumber(Bits(bytes));
    assert ALPHABET == "abcdefghijklmnopqrstuvwxyz234567";
  }
}
