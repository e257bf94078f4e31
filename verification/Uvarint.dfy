// gateway/src/hosting/targets.ts: readUvarint, whose accumulator is a 32-bit integer.
module Uvarint {
  import opened Bytes

  datatype Number = Number(value: int, next: nat)

  // x | y on 32-bit words.
  function Or(x: nat, y: nat): (r: nat)
    decreases x + y
  {
    if x == 0 then y else if y == 0 then x
    else 2 * Or(x / 2, y / 2) + (if x % 2 == 1 || y % 2 == 1 then 1 else 0)
  }

  // b << s on a 32-bit word: the shift count is taken modulo 32.
  function Shl(b: nat, s: nat): nat {
    b * Pow2(s % 32) % U32
  }

  // The signed number a 32-bit word stands for.
  function Signed(w: nat): int {
    if w % U32 < 0x8000_0000 then w % U32 else w % U32 - U32
  }

  // The loop from its k-th byte on.
  function Scan(bytes: seq<Byte>, offset: nat, k: nat, x: nat): Option<Number>
    decreases 10 - k
  {
    if offset + k >= |bytes| || k >= 10 then None
    else
      var b := bytes[offset + k];
      if b < 128 then
        if k == 9 && b > 1 then None else Some(Number(Signed(Or(x, Shl(b, 7 * k))), offset + k + 1))
      else Scan(bytes, offset, k + 1, Or(x, Shl(b - 128, 7 * k)))
  }

  method ReadUvarint(bytes: seq<Byte>, offset: nat) returns (r: Option<Number>)
    ensures r == Scan(bytes, offset, 0, 0)
  {
    hide Or, Shl, Signed;
    var x, s, i: nat := 0, 0, offset;
    while i < |bytes| && i - offset < 10
      invariant offset <= i && i - offset <= 10 && s == 7 * (i - offset)
      invariant Scan(bytes, offset, 0, 0) == Scan(bytes, offset, i - offset, x)
      decreases |bytes| - i
    {
      var b := bytes[i];
      if b < 128 {
        if i - offset == 9 && b > 1 {
          return None;
        }
        return Some(Number(Signed(Or(x, Shl(b, s))), i + 1));
      }
      x := Or(x, Shl(b - 128, s));
      s := s + 7;
      i := i + 1;
    }
    return None;
  }

  // The unsigned varint format: seven bits a byte, least significant first, the top bit set on
  // all bytes but the last.
  function Encode(n: nat): (r: seq<Byte>)
    ensures r != []
  {
    if n < 128 then [n] else [n % 128 + 128] + Encode(n / 128)
  }

  // Bits that do not overlap are added.
  lemma {:induction false} OrDisjoint(x: nat, c: nat, k: nat)
    requires x < Pow2(k)
    ensures Or(x, c * Pow2(k)) == x + c * Pow2(k)
    decreases k
  {
    var y := c * Pow2(k);
    if k > 0 && x > 0 && y > 0 {
      var h := c * Pow2(k - 1);
      assert y == 2 * h by { Twice(c, Pow2(k - 1)); }
      assert y / 2 == h && y % 2 == 0;
      OrDisjoint(x / 2, c, k - 1);
    }
  }

  lemma Twice(c: nat, p: nat)
    ensures c * (2 * p) == 2 * (c * p)
  {
  }

  lemma Pow2Values()
    ensures Pow2(0) == 1 && Pow2(7) == 128 && Pow2(14) == 0x4000 && Pow2(21) == 0x20_0000 && Pow2(28) == 0x1000_0000
  {
    Pow2Seven(0);
    Pow2Seven(7);
    Pow2Seven(14);
    Pow2Seven(21);
  }

  lemma Pow2Seven(k: nat)
    ensures Pow2(k + 7) == 128 * Pow2(k)
  {
    assert Pow2(k + 7) == 2 * Pow2(k + 6) && Pow2(k + 6) == 2 * Pow2(k + 5) && Pow2(k + 5) == 2 * Pow2(k + 4);
    assert Pow2(k + 4) == 2 * Pow2(k + 3) && Pow2(k + 3) == 2 * Pow2(k + 2) && Pow2(k + 2) == 2 * Pow2(k + 1);
  }

  lemma GroupShift(c: nat, k: nat)
    requires k < 4 && c < 128
    ensures Shl(c, 7 * k) == c * Pow2(7 * k) && c * Pow2(7 * k) + Pow2(7 * k) <= Pow2(7 * k + 7)
  {
    hide Pow2;
    Pow2Values();
    if k == 0 { assert 7 * k == 0; } else if k == 1 { assert 7 * k == 7; } else if k == 2 { assert 7 * k == 14; }
  }

  // One of the first four groups lands above what is there.
  lemma GroupAdds(x: nat, c: nat, k: nat)
    requires k < 4 && c < 128 && x < Pow2(7 * k)
    ensures Or(x, Shl(c, 7 * k)) == x + c * Pow2(7 * k) < Pow2(7 * (k + 1))
  {
    hide Or, Pow2, Shl;
    GroupShift(c, k);
    OrDisjoint(x, c, 7 * k);
    assert 7 * (k + 1) == 7 * k + 7;
  }

  // The fifth keeps four of its seven bits.
  lemma FifthGroup(x: nat, c: nat)
    requires c < 128 && x < Pow2(28)
    ensures Or(x, Shl(c, 28)) == (x + c * Pow2(28)) % U32
  {
    hide Or, Pow2;
    Pow2Values();
    var p := 0x1000_0000;
    assert c * p == (c % 16) * p + (c / 16) * U32;
    DivModUnique(c * p, U32, c / 16, (c % 16) * p);
    OrDisjoint(x, c % 16, 28);
    DivModUnique(x + c * p, U32, c / 16, x + (c % 16) * p);
  }

  // At most ten bytes, and in the tenth no more than the 64th bit.
  predicate Readable(n: nat, k: nat)
    decreases 10 - k
  {
    if n < 128 then k < 9 || (k == 9 && n <= 1) else k < 9 && Readable(n / 128, k + 1)
  }

  function Bound(k: nat): (r: nat)
    requires k <= 9
    ensures r >= 1
    decreases 9 - k
  {
    if k == 9 then 2 else 128 * Bound(k + 1)
  }

  lemma {:induction false} ReadableBound(n: nat, k: nat)
    requires k <= 9
    ensures Readable(n, k) <==> n < Bound(k)
    decreases 9 - k
  {
    if k < 9 {
      ReadableBound(n / 128, k + 1);
      DivBelow(n, Bound(k + 1));
    }
  }

  lemma DivBelow(n: nat, m: nat)
    ensures n / 128 < m <==> n < 128 * m
  {
  }

  lemma Readable64(n: nat)
    ensures Readable(n, 0) <==> n < U64
  {
    ReadableBound(n, 0);
    assert Bound(8) == 256 && Bound(7) == 0x8000 && Bound(6) == 128 * Bound(7) && Bound(5) == 128 * Bound(6);
    assert Bound(4) == 128 * Bound(5) && Bound(3) == 128 * Bound(4);
    assert Bound(2) == 128 * Bound(3) && Bound(1) == 128 * Bound(2);
  }

  lemma ScanEnds(b: seq<Byte>, offset: nat, k: nat, x: nat, n: nat)
    requires At(b, offset + k, Encode(n)) && k < 10 && n < 128
    ensures |Encode(n)| == 1
    ensures Scan(b, offset, k, x) ==
            if k == 9 && n > 1 then None else Some(Number(Signed(Or(x, Shl(n, 7 * k))), offset + k + 1))
  {
    hide Or, Shl, Signed;
    AtByte(b, offset + k, [n], 0);
  }

  lemma ScanContinues(b: seq<Byte>, offset: nat, k: nat, x: nat, n: nat)
    requires At(b, offset + k, Encode(n)) && k < 10 && n >= 128
    ensures At(b, offset + k + 1, Encode(n / 128)) && |Encode(n)| == 1 + |Encode(n / 128)|
    ensures Scan(b, offset, k, x) == Scan(b, offset, k + 1, Or(x, Shl(n % 128, 7 * k)))
  {
    hide Or, Shl, Signed;
    AtSplit(b, offset + k, [n % 128 + 128], Encode(n / 128));
    AtByte(b, offset + k, [n % 128 + 128], 0);
  }

  // Where an encoded number stands, the loop stops behind it exactly when it is readable.
  lemma {:induction false} ScanStops(b: seq<Byte>, offset: nat, k: nat, x: nat, n: nat)
    requires At(b, offset + k, Encode(n)) && k <= 10
    ensures var r := Scan(b, offset, k, x);
            && (r.Some? <==> Readable(n, k))
            && (r.Some? ==> r.value.next == offset + k + |Encode(n)| && -0x8000_0000 <= r.value.value < 0x8000_0000)
    decreases 10 - k
  {
    hide Or, Shl, Encode;
    if k < 10 {
      if n < 128 {
        ScanEnds(b, offset, k, x, n);
      } else {
        ScanContinues(b, offset, k, x, n);
        ScanStops(b, offset, k + 1, Or(x, Shl(n % 128, 7 * k)), n / 128);
      }
    }
  }

  // n shifted up by k groups of seven bits.
  function Shifted(n: nat, k: nat): nat {
    n * Pow2(7 * k)
  }

  // Up to five bytes the accumulator holds what was read, modulo 2^32.
  lemma {:induction false} ScanValue(b: seq<Byte>, offset: nat, k: nat, x: nat, n: nat)
    requires At(b, offset + k, Encode(n)) && k <= 4 && x < Pow2(7 * k) && Shifted(n, k) < 0x8_0000_0000
    ensures var r := Scan(b, offset, k, x); r.Some? && r.value.value == Signed(x + Shifted(n, k))
    decreases 4 - k
  {
    hide Or, Shl, Pow2, Signed, Encode, Scan;
    var p := Pow2(7 * k);
    FitsIn(n, k);
    if n < 128 {
      ScanEnds(b, offset, k, x, n);
      if k < 4 {
        GroupAdds(x, n, k);
      } else {
        FifthGroup(x, n);
        SignedModulo(x + n * p);
      }
    } else {
      ScanContinues(b, offset, k, x, n);
      GroupAdds(x, n % 128, k);
      Pow2Seven(7 * k);
      assert 7 * (k + 1) == 7 * k + 7;
      Regroup(n, p);
      ScanValue(b, offset, k + 1, x + n % 128 * p, n / 128);
    }
  }

  lemma FitsIn(n: nat, k: nat)
    requires k <= 4 && n * Pow2(7 * k) < 0x8_0000_0000
    ensures k == 4 ==> n < 128
  {
    Pow2Values();
  }

  lemma Regroup(n: nat, p: nat)
    ensures n % 128 * p + n / 128 * (128 * p) == n * p
    ensures n / 128 * (128 * p) <= n * p
  {
    assert n == n % 128 + 128 * (n / 128);
    assert (n % 128 + 128 * (n / 128)) * p == n % 128 * p + 128 * (n / 128) * p;
    assert 128 * (n / 128) * p == n / 128 * (128 * p);
  }

  lemma SignedModulo(w: nat)
    ensures Signed(w % U32) == Signed(w)
  {
  }

  // What readUvarint makes of an encoded number, wherever it stands and whatever follows: it is
  // refused exactly from 2^64 on, and read back as itself exactly below 2^31. In between the
  // reader stops at the right place with another number.
  lemma ReadsEncoded(before: seq<Byte>, n: nat, behind: seq<Byte>)
    ensures var r := Scan(before + Encode(n) + behind, |before|, 0, 0);
            && (r.Some? <==> n < U64)
            && (r.Some? ==> r.value.next == |before| + |Encode(n)| && (r.value.value == n <==> n < 0x8000_0000))
            && (n < 0x8_0000_0000 ==> r.Some? && r.value.value == Signed(n))
  {
    hide Scan, Encode;
    var b := before + Encode(n) + behind;
    assert At(b, |before|, Encode(n));
    ScanStops(b, |before|, 0, 0, n);
    Readable64(n);
    Pow2Values();
    if n < 0x8_0000_0000 {
      ScanValue(b, |before|, 0, 0, n);
    }
  }

  // ---------- beyond 2^35: where the bits go ----------

  predicate Bit(n: nat, i: nat) {
    n / Pow2(i) % 2 == 1
  }

  lemma BitHalved(n: nat, i: nat)
    ensures Bit(n, i + 1) <==> Bit(n / 2, i)
  {
    DivTwice(n, 2, Pow2(i));
  }

  lemma {:induction false} OrBit(x: nat, y: nat, i: nat)
    ensures Bit(Or(x, y), i) <==> Bit(x, i) || Bit(y, i)
    decreases i
  {
    if x > 0 && y > 0 && i > 0 {
      BitHalved(x, i - 1);
      BitHalved(y, i - 1);
      BitHalved(Or(x, y), i - 1);
      OrBit(x / 2, y / 2, i - 1);
      hide Bit;
      assert Or(x, y) / 2 == Or(x / 2, y / 2);
    } else {
      ZeroHasNone(i);
    }
  }

  lemma ZeroHasNone(i: nat)
    ensures !Bit(0, i)
  {
    assert 0 / Pow2(i) == 0;
  }

  lemma {:induction false} ShiftedBit(c: nat, s: nat, i: nat)
    ensures Bit(c * Pow2(s), i) <==> i >= s && Bit(c, i - s)
    decreases s
  {
    if s == 0 {
      assert c * 1 == c;
    } else {
      var h := c * Pow2(s - 1);
      assert c * Pow2(s) == 2 * h by { Twice(c, Pow2(s - 1)); }
      if i == 0 {
        assert Pow2(0) == 1;
      } else {
        BitHalved(2 * h, i - 1);
        ShiftedBit(c, s - 1, i - 1);
      }
    }
  }

  lemma {:induction false} LowBit(n: nat, k: nat, i: nat)
    requires i < k
    ensures Bit(n % Pow2(k), i) <==> Bit(n, i)
    decreases k
  {
    var p := Pow2(k - 1);
    assert Pow2(k) == 2 * p;
    HalfModulo(n, p);
    if i == 0 {
      assert Pow2(0) == 1;
    } else {
      BitHalved(n, i - 1);
      BitHalved(n % Pow2(k), i - 1);
      LowBit(n / 2, k - 1, i - 1);
    }
  }

  lemma HalfModulo(n: nat, p: nat)
    requires p > 0
    ensures n % (2 * p) / 2 == n / 2 % p && n % (2 * p) % 2 == n % 2
  {
    var q, r := n / (2 * p), n % (2 * p);
    assert n == 2 * (p * q) + r;
    assert n / 2 == p * q + r / 2 && n % 2 == r % 2;
    assert p * q == q * p;
    DivModUnique(n / 2, p, q, r / 2);
  }

  lemma HighBit(c: nat, i: nat)
    requires c < 128 && i >= 7
    ensures !Bit(c, i)
  {
    Pow2Seven(i - 7);
    assert Pow2(i) == 128 * Pow2(i - 7);
    DivModUnique(c, Pow2(i), 0, c);
  }

  lemma Pow32()
    ensures Pow2(32) == U32
  {
    Pow2Values();
    assert Pow2(32) == 2 * Pow2(31) && Pow2(31) == 2 * Pow2(30) && Pow2(30) == 2 * Pow2(29) && Pow2(29) == 2 * Pow2(28);
  }

  lemma ShlBit(c: nat, s: nat, i: nat)
    requires i < 32
    ensures Bit(Shl(c, s), i) <==> i >= s % 32 && Bit(c, i - s % 32)
  {
    Pow32();
    LowBit(c * Pow2(s % 32), 32, i);
    ShiftedBit(c, s % 32, i);
  }

  // Bit m of the number, counted from the k-th group on, lands on bit i of the word: the shift of
  // its group is taken modulo 32.
  predicate Lands(m: nat, k: nat, i: nat) {
    (7 * (k + m / 7)) % 32 + m % 7 == i
  }

  ghost predicate SomeLands(n: nat, k: nat, i: nat) {
    exists m: nat :: Lands(m, k, i) && Bit(n, m)
  }

  // One group, and what is behind it.
  lemma GroupLands(n: nat, k: nat, i: nat)
    requires i < 32
    ensures SomeLands(n, k, i) <==> Bit(Shl(n % 128, 7 * k), i) || SomeLands(n / 128, k + 1, i)
  {
    hide Bit, Shl, Lands;
    ShlBit(n % 128, 7 * k, i);
    if SomeLands(n, k, i) {
      var m: nat :| Lands(m, k, i) && Bit(n, m);
      LandsSplit(n, m, k, i);
    }
    var s := 7 * k % 32;
    if i >= s && Bit(n % 128, i - s) {
      LandsHere(n, k, i);
    }
    if SomeLands(n / 128, k + 1, i) {
      var m: nat :| Lands(m, k + 1, i) && Bit(n / 128, m);
      BitsBehind(n, m);
      LandsNext(m, k, i);
    }
  }

  lemma LandsSplit(n: nat, m: nat, k: nat, i: nat)
    requires Lands(m, k, i) && Bit(n, m)
    ensures (i >= 7 * k % 32 && Bit(n % 128, i - 7 * k % 32)) || SomeLands(n / 128, k + 1, i)
  {
    hide Bit;
    if m < 7 {
      LowSeven(n, m);
    } else {
      BitsBehind(n, m - 7);
      LandsNext(m - 7, k, i);
    }
  }

  lemma LandsNext(m: nat, k: nat, i: nat)
    ensures Lands(m + 7, k, i) <==> Lands(m, k + 1, i)
  {
    assert (m + 7) / 7 == m / 7 + 1 && (m + 7) % 7 == m % 7;
  }

  lemma LandsHere(n: nat, k: nat, i: nat)
    requires i >= 7 * k % 32 && Bit(n % 128, i - 7 * k % 32)
    ensures SomeLands(n, k, i)
  {
    hide Bit;
    var r := i - 7 * k % 32;
    if r >= 7 {
      HighBit(n % 128, r);
    } else {
      LowSeven(n, r);
      assert r / 7 == 0 && Lands(r, k, i);
    }
  }

  lemma LowSeven(n: nat, m: nat)
    requires m < 7
    ensures Bit(n % 128, m) <==> Bit(n, m)
  {
    Pow2Values();
    LowBit(n, 7, m);
  }

  lemma BitsBehind(n: nat, m: nat)
    ensures Bit(n / 128, m) <==> Bit(n, m + 7)
  {
    Pow2Seven(m);
    DivTwice(n, 128, Pow2(m));
  }

  lemma NothingBehind(n: nat, k: nat, i: nat)
    requires n < 128
    ensures !SomeLands(n / 128, k, i)
  {
    forall m: nat ensures !Bit(n / 128, m) {
      ZeroHasNone(m);
    }
  }

  // The word that is read: bit i is set exactly when some bit of the number lands on it.
  lemma {:induction false} ScanBits(b: seq<Byte>, offset: nat, k: nat, x: nat, n: nat) returns (w: nat)
    requires At(b, offset + k, Encode(n)) && k < 10 && Readable(n, k)
    ensures Scan(b, offset, k, x).Some? && Scan(b, offset, k, x).value.value == Signed(w)
    ensures forall i: nat :: i < 32 ==> (Bit(w, i) <==> Bit(x, i) || SomeLands(n, k, i))
    decreases 10 - k
  {
    hide Or, Shl, Encode, Bit, SomeLands, Signed, Scan;
    var c := n % 128;
    var y := Or(x, Shl(c, 7 * k));
    if n < 128 {
      ScanEnds(b, offset, k, x, n);
      w := y;
    } else {
      ScanContinues(b, offset, k, x, n);
      w := ScanBits(b, offset, k + 1, y, n / 128);
    }
    forall i: nat | i < 32 ensures Bit(w, i) <==> Bit(x, i) || SomeLands(n, k, i) {
      OrBit(x, Shl(c, 7 * k), i);
      GroupLands(n, k, i);
      if n < 128 {
        NothingBehind(n, k + 1, i);
      }
    }
  }

  // Every number below 2^64 is read as the 32-bit word whose bit i is set exactly when a bit m of
  // the number is for which (7 * (m / 7)) mod 32 + m mod 7 is i.
  lemma ReadsBits(before: seq<Byte>, n: nat, behind: seq<Byte>) returns (w: nat)
    requires n < U64
    ensures var r := Scan(before + Encode(n) + behind, |before|, 0, 0);
            r.Some? && r.value.value == Signed(w)
    ensures forall i: nat :: i < 32 ==> (Bit(w, i) <==> SomeLands(n, 0, i))
  {
    hide Scan, Encode, Bit, SomeLands, Signed;
    var b := before + Encode(n) + behind;
    assert At(b, |before|, Encode(n));
    Readable64(n);
    w := ScanBits(b, |before|, 0, 0, n);
    forall i: nat | i < 32 ensures Bit(w, i) <==> SomeLands(n, 0, i) {
      ZeroHasNone(i);
    }
  }
}
