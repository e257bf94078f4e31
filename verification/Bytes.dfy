// Little-endian integers, concatenation, and counted lists read at a moving offset: the base
// layer of the binary codecs.
module Bytes {
  import opened Sorting

  type Byte = x: int | 0 <= x < 256
  type CodeUnit = x: int | 0 <= x < 65536

  datatype Option<+T> = None | Some(value: T)

  // A call that returns, or throws.
  datatype Outcome<+T> = Ok(value: T) | Throws

  const U16: nat := 0x1_0000
  const U32: nat := 0x1_0000_0000
  const U64: nat := 0x1_0000_0000_0000_0000

  // DataView.setUintN in little-endian order: the value is taken modulo 256^k.
  function ToLe(n: int, k: nat): (r: seq<Byte>)
    ensures |r| == k
    decreases k
  {
    if k == 0 then [] else [n % 256] + ToLe(n / 256, k - 1)
  }

  function FromLe(s: seq<Byte>): nat {
    if s == [] then 0 else s[0] + 256 * FromLe(s[1..])
  }

  function U16le(n: int): seq<Byte> { ToLe(n, 2) }
  function U32le(n: int): seq<Byte> { ToLe(n, 4) }
  function U64le(n: int): seq<Byte> { ToLe(n, 8) }

  function Pow2(k: nat): (r: nat)
    ensures r > 0
  {
    if k == 0 then 1 else 2 * Pow2(k - 1)
  }

  function Pow256(k: nat): (r: nat)
    ensures r > 0
  {
    if k == 0 then 1 else 256 * Pow256(k - 1)
  }

  lemma PowValues()
    ensures Pow256(2) == U16 && Pow256(4) == U32 && Pow256(8) == U64
  {
    assert Pow256(1) == 256 * Pow256(0) && Pow256(3) == 256 * Pow256(2);
    assert Pow256(5) == 256 * Pow256(4) && Pow256(6) == 256 * Pow256(5) && Pow256(7) == 256 * Pow256(6);
  }

  lemma ModStep(n: int, m: nat)
    requires m > 0
    ensures n % (256 * m) == n % 256 + 256 * ((n / 256) % m)
  {
    var q := n / 256;
    var k := q / m;
    assert n == 256 * (k * m + q % m) + n % 256;
    assert 256 * (k * m) == k * (256 * m);
    var r := n % 256 + 256 * (q % m);
    assert n == k * (256 * m) + r;
    assert 0 <= r < 256 * m;
    DivModUnique(n, 256 * m, k, r);
  }

  lemma DivModSum(n: nat, base: nat)
    requires base > 0
    ensures (n / base) * base + n % base == n && n / base >= 0
  {
  }

  lemma MulAtLeast(k: int, d: int)
    requires k >= 1 && d > 0
    ensures k * d >= d
  {
  }

  lemma DivModUnique(n: int, d: int, q: int, r: int)
    requires d > 0 && 0 <= r < d && n == q * d + r
    ensures n % d == r && n / d == q
  {
    var q', r' := n / d, n % d;
    assert n == d * q' + r';
    assert (q - q') * d == r' - r;
    if q' > q {
      MulAtLeast(q' - q, d);
    } else if q' < q {
      MulAtLeast(q - q', d);
    }
  }

  // Writing k bytes and reading them back keeps the value modulo 256^k.
  lemma {:induction false} LeRoundTrip(n: int, k: nat)
    ensures FromLe(ToLe(n, k)) == n % Pow256(k)
    decreases k
  {
    if k > 0 {
      LeRoundTrip(n / 256, k - 1);
      ModStep(n, Pow256(k - 1));
    }
  }

  // Writing keeps nothing but that value.
  lemma {:induction false} LeWraps(n: int, k: nat)
    ensures ToLe(n % Pow256(k), k) == ToLe(n, k)
    decreases k
  {
    if k > 0 {
      var m := Pow256(k - 1);
      LeWraps(n / 256, k - 1);
      ModStep(n, m);
      DivModUnique(n % (256 * m), 256, (n / 256) % m, n % 256);
    }
  }

  // Writing what was read gives the bytes back.
  lemma {:induction false} WritesBack(s: seq<Byte>)
    ensures ToLe(FromLe(s), |s|) == s
  {
    if s != [] {
      WritesBack(s[1..]);
      DivModUnique(FromLe(s), 256, FromLe(s[1..]), s[0]);
      assert s == [s[0]] + s[1..];
    }
  }

  // The i-th byte is the i-th digit to the base 256.
  lemma {:induction false} LeDigits(n: int, k: nat, i: nat)
    requires i < k
    ensures ToLe(n, k)[i] == n / Pow256(i) % 256
    decreases k
  {
    if i > 0 {
      LeDigits(n / 256, k - 1, i - 1);
      DivTwice(n, 256, Pow256(i - 1));
    }
  }

  lemma DivTwice(n: int, a: nat, m: nat)
    requires a > 0 && m > 0
    ensures n / a / m == n / (a * m)
  {
    var p := n / a;
    var q, u, r := p / m, p % m, n % a;
    Reassemble(a, m, q, u, r);
    assert n == q * (a * m) + (a * u + r);
    Within(a, m, u, r);
    DivModUnique(n, a * m, q, a * u + r);
  }

  lemma Reassemble(a: int, m: int, q: int, u: int, r: int)
    ensures a * (m * q + u) + r == q * (a * m) + (a * u + r)
  {
  }

  lemma Within(a: int, m: int, u: int, r: int)
    requires 0 <= u < m && 0 <= r < a
    ensures 0 <= a * u + r < a * m
  {
    assert a * u <= a * (m - 1);
    assert a * (m - 1) == a * m - a;
  }

  function Zeros(n: nat): (r: seq<Byte>)
    ensures |r| == n && forall i :: 0 <= i < n ==> r[i] == 0
  {
    seq(n, i => 0)
  }

  function Flatten(parts: seq<seq<Byte>>): seq<Byte> {
    if parts == [] then [] else parts[0] + Flatten(parts[1..])
  }

  // The last part of a signed encoding.
  function SigBytes(sig: Option<seq<Byte>>): seq<Byte> {
    if sig.Some? then sig.value else []
  }

  lemma {:induction false} FlattenConcat(a: seq<seq<Byte>>, b: seq<seq<Byte>>)
    ensures Flatten(a + b) == Flatten(a) + Flatten(b)
  {
    if a == [] {
      assert a + b == b;
    } else {
      FlattenConcat(a[1..], b);
      assert (a + b)[1..] == a[1..] + b;
      ConcatAssociative(a[0], Flatten(a[1..]), Flatten(b));
    }
  }

  lemma FlattenPush(a: seq<seq<Byte>>, x: seq<Byte>)
    ensures Flatten(a + [x]) == Flatten(a) + x
  {
    FlattenConcat(a, [x]);
    assert Flatten([x]) == x + Flatten([]) == x;
  }

  // concatBytes: measure, allocate, copy part by part.
  method ConcatBytes(parts: seq<seq<Byte>>) returns (out: array<Byte>)
    ensures fresh(out) && out[..] == Flatten(parts)
  {
    var len := 0;
    for i := 0 to |parts|
      invariant len == |Flatten(parts[..i])|
    {
      assert parts[..i + 1] == parts[..i] + [parts[i]];
      FlattenPush(parts[..i], parts[i]);
      len := len + |parts[i]|;
    }
    assert parts[..|parts|] == parts;
    out := new Byte[len];
    var o := 0;
    for i := 0 to |parts|
      invariant o == |Flatten(parts[..i])| <= len
      invariant out[..o] == Flatten(parts[..i])
    {
      var p := parts[i];
      assert parts[..i + 1] == parts[..i] + [p];
      FlattenPush(parts[..i], p);
      assert parts == parts[..i + 1] + parts[i + 1..];
      FlattenConcat(parts[..i + 1], parts[i + 1..]);
      forall j | 0 <= j < |p| {
        out[o + j] := p[j];
      }
      o := o + |p|;
    }
  }

  // ascii(): the low eight bits of each code unit.
  function Ascii(s: seq<CodeUnit>): (r: seq<Byte>)
    ensures |r| == |s|
  {
    seq(|s|, i requires 0 <= i < |s| => s[i] % 256)
  }

  // Uint8Array.slice clamps both ends.
  function Slice(b: seq<Byte>, from: nat, to: nat): seq<Byte> {
    if from >= |b| || to <= from then [] else b[from..if to < |b| then to else |b|]
  }

  // DataView.getUintN throws beyond the end of the buffer.
  function Read(b: seq<Byte>, off: nat, k: nat): Outcome<nat> {
    if off + k <= |b| then Ok(FromLe(b[off..off + k])) else Throws
  }

  // The bytes s stand in b at off.
  ghost predicate At(b: seq<Byte>, off: nat, s: seq<Byte>) {
    off + |s| <= |b| && b[off..off + |s|] == s
  }

  lemma AtSplit(b: seq<Byte>, off: nat, s: seq<Byte>, t: seq<Byte>)
    requires At(b, off, s + t)
    ensures At(b, off, s) && At(b, off + |s|, t)
  {
    var w := b[off..off + |s| + |t|];
    assert w == s + t;
    assert b[off..off + |s|] == w[..|s|];
    assert b[off + |s|..off + |s| + |t|] == w[|s|..];
  }

  lemma AtStart(b: seq<Byte>)
    ensures At(b, 0, b)
  {
  }

  lemma AtByte(b: seq<Byte>, off: nat, s: seq<Byte>, i: nat)
    requires At(b, off, s) && i < |s|
    ensures off + i < |b| && b[off + i] == s[i]
  {
    assert b[off..off + |s|][i] == b[off + i];
  }

  lemma AtSlice(b: seq<Byte>, off: nat, s: seq<Byte>)
    requires At(b, off, s)
    ensures off + |s| <= |b| && Slice(b, off, off + |s|) == s
  {
  }

  lemma ReadAt(b: seq<Byte>, off: nat, n: int, k: nat)
    requires At(b, off, ToLe(n, k))
    ensures off + k <= |b| && FromLe(b[off..off + k]) == n % Pow256(k)
    ensures Read(b, off, k) == Ok(n % Pow256(k))
  {
    LeRoundTrip(n, k);
  }

  // A number that fits is read back as it was written.
  lemma ReadsBack(b: seq<Byte>, off: nat, n: int, k: nat)
    requires At(b, off, ToLe(n, k)) && 0 <= n < Pow256(k)
    ensures off + k <= |b| && FromLe(b[off..off + k]) == n
  {
    hide ToLe, FromLe, Pow256, Read;
    ReadAt(b, off, n, k);
    SmallMod(n, Pow256(k));
  }

  lemma SmallMod(n: int, m: int)
    requires 0 <= n < m
    ensures n % m == n
  {
  }

  lemma {:induction false} FromLeBound(s: seq<Byte>)
    ensures FromLe(s) < Pow256(|s|)
  {
    if s != [] {
      FromLeBound(s[1..]);
    }
  }

  // What reading one item at an offset gives: the item and the offset behind it, an exception,
  // or an offset that is no longer a number.
  datatype Step<+T> = Next(value: T, off: nat) | Fail | NotANumber

  function ReadMany<T>(read: nat -> Step<T>, off: nat, n: nat): (r: Step<seq<T>>)
    ensures r.Next? ==> |r.value| == n
    decreases n
  {
    if n == 0 then Next([], off)
    else
      match read(off)
      case Next(x, o) =>
        (match ReadMany(read, o, n - 1)
         case Next(xs, o') => Next([x] + xs, o')
         case Fail => Fail
         case NotANumber => NotANumber)
      case Fail => Fail
      case NotANumber => NotANumber
  }

  function Prepend<T>(xs: seq<T>, r: Step<seq<T>>): Step<seq<T>> {
    match r
    case Next(ys, o) => Next(xs + ys, o)
    case Fail => Fail
    case NotANumber => NotANumber
  }

  lemma PrependEnds<T>(read: nat -> Step<T>, off: nat, xs: seq<T>, r: Step<seq<T>>)
    ensures Prepend([], r) == r && Prepend(xs, ReadMany(read, off, 0)) == Next(xs, off)
  {
    if r.Next? {
      assert [] + r.value == r.value;
    }
    assert xs + [] == xs;
  }

  // One iteration of a reading loop: xs has been collected, n items are left from off on.
  lemma ReadManyStep<T>(read: nat -> Step<T>, off: nat, n: nat, xs: seq<T>)
    requires n > 0
    ensures Prepend(xs, ReadMany(read, off, n)) ==
            match read(off)
            case Next(x, o) => Prepend(xs + [x], ReadMany(read, o, n - 1))
            case Fail => Fail
            case NotANumber => NotANumber
  {
    if read(off).Next? {
      var x, rest := read(off).value, ReadMany(read, read(off).off, n - 1);
      if rest.Next? {
        assert xs + ([x] + rest.value) == (xs + [x]) + rest.value;
      }
    }
  }

  // read undoes enc, up to g, wherever an encoded member of xs stands in b.
  ghost predicate Reads<T(!new), U>(read: nat -> Step<U>, b: seq<Byte>, xs: seq<T>, enc: T -> seq<Byte>, g: T -> U) {
    forall x, o: nat :: x in xs && At(b, o, enc(x)) ==> read(o) == Next(g(x), o + |enc(x)|)
  }

  lemma {:induction false} ReadManyUndoes<T(!new), U>(read: nat -> Step<U>, b: seq<Byte>, off: nat, xs: seq<T>,
                                                     enc: T -> seq<Byte>, g: T -> U)
    requires Reads(read, b, xs, enc, g)
    requires At(b, off, Flatten(Map(xs, enc)))
    ensures ReadMany(read, off, |xs|) == Next(Map(xs, g), off + |Flatten(Map(xs, enc))|)
    decreases |xs|
  {
    hide Reads, At;
    if xs != [] {
      hide Map, Flatten, ReadMany;
      var x, rest := xs[0], xs[1..];
      var e, tail := enc(x), Flatten(Map(rest, enc));
      FlattenHead(xs, enc);
      MapHead(xs, g);
      AtSplit(b, off, e, tail);
      HeadRead(read, b, off, xs, enc, g);
      ReadsRest(read, b, xs, enc, g);
      ReadManyUndoes(read, b, off + |e|, rest, enc, g);
      ReadManyHead(read, off, |rest|, g(x), off + |e|, Map(rest, g), off + |e| + |tail|);
    }
  }

  lemma ReadManyHead<T>(read: nat -> Step<T>, off: nat, n: nat, x: T, o: nat, xs: seq<T>, end: nat)
    requires read(off) == Next(x, o) && ReadMany(read, o, n) == Next(xs, end)
    ensures ReadMany(read, off, n + 1) == Next([x] + xs, end)
  {
  }

  lemma FlattenHead<T>(xs: seq<T>, enc: T -> seq<Byte>)
    requires xs != []
    ensures Flatten(Map(xs, enc)) == enc(xs[0]) + Flatten(Map(xs[1..], enc))
  {
    hide Map;
    MapHead(xs, enc);
    var parts := Map(xs, enc);
    assert parts[0] == enc(xs[0]) && parts[1..] == Map(xs[1..], enc);
  }

  lemma MapHead<T, U>(xs: seq<T>, f: T -> U)
    requires xs != []
    ensures Map(xs, f) == [f(xs[0])] + Map(xs[1..], f)
  {
  }

  lemma HeadRead<T(!new), U>(read: nat -> Step<U>, b: seq<Byte>, off: nat, xs: seq<T>, enc: T -> seq<Byte>, g: T -> U)
    requires Reads(read, b, xs, enc, g) && xs != [] && At(b, off, enc(xs[0]))
    ensures read(off) == Next(g(xs[0]), off + |enc(xs[0])|)
  {
    hide At;
    assert xs[0] in xs;
  }

  lemma ReadsRest<T(!new), U>(read: nat -> Step<U>, b: seq<Byte>, xs: seq<T>, enc: T -> seq<Byte>, g: T -> U)
    requires Reads(read, b, xs, enc, g) && xs != []
    ensures Reads(read, b, xs[1..], enc, g)
  {
    assert forall x :: x in xs[1..] ==> x in xs;
  }

  lemma {:induction false} ReadManyKeeps<T(!new)>(read: nat -> Step<T>, off: nat, n: nat, p: T -> bool)
    requires forall o: nat :: read(o).Next? ==> p(read(o).value)
    ensures var r := ReadMany(read, off, n); r.Next? ==> forall x :: x in r.value ==> p(x)
    decreases n
  {
    if n > 0 && read(off).Next? {
      ReadManyKeeps(read, read(off).off, n - 1, p);
    }
  }

  // No encoded member is cut short or run over by what follows it.
  ghost predicate SelfDelimiting<T(!new)>(xs: seq<T>, enc: T -> seq<Byte>) {
    forall x, y, s, t :: x in xs && y in xs && enc(x) + s == enc(y) + t ==> |enc(x)| == |enc(y)|
  }

  // A self-delimiting list can be read back from its concatenation.
  lemma {:induction false} FlattenInjective<T(!new)>(dom: seq<T>, xs: seq<T>, ys: seq<T>, enc: T -> seq<Byte>)
    requires SelfDelimiting(dom, enc)
    requires |xs| == |ys| && (forall x :: x in xs || x in ys ==> x in dom)
    requires Flatten(Map(xs, enc)) == Flatten(Map(ys, enc))
    ensures Map(xs, enc) == Map(ys, enc)
  {
    if xs != [] {
      MapHead(xs, enc);
      MapHead(ys, enc);
      var s, t := Flatten(Map(xs[1..], enc)), Flatten(Map(ys[1..], enc));
      assert xs[0] in xs && ys[0] in ys;
      assert enc(xs[0]) + s == enc(ys[0]) + t;
      SameHead(enc(xs[0]), s, enc(ys[0]), t);
      FlattenInjective(dom, xs[1..], ys[1..], enc);
    }
  }

  // The loop over a byte-array comparison: the first differing byte decides, then the lengths.
  function CmpBytes(a: seq<Byte>, b: seq<Byte>): int {
    if a == [] || b == [] then |a| - |b|
    else if a[0] != b[0] then a[0] - b[0]
    else CmpBytes(a[1..], b[1..])
  }

  method CompareBytes(a: seq<Byte>, b: seq<Byte>) returns (r: int)
    ensures r == CmpBytes(a, b)
  {
    var m := if |a| < |b| then |a| else |b|;
    for i := 0 to m
      invariant CmpBytes(a, b) == CmpBytes(a[i..], b[i..])
    {
      var d: int := a[i] as int - b[i] as int;
      if d != 0 {
        return d;
      }
    }
    return |a| - |b|;
  }

  lemma {:induction false} CmpBytesSigns(a: seq<Byte>, b: seq<Byte>)
    ensures CmpBytes(a, b) == -CmpBytes(b, a)
    ensures CmpBytes(a, b) == 0 <==> a == b
  {
    if a != [] && b != [] && a[0] == b[0] {
      CmpBytesSigns(a[1..], b[1..]);
      assert a == [a[0]] + a[1..] && b == [b[0]] + b[1..];
    }
  }

  lemma {:induction false} CmpBytesTransitive(a: seq<Byte>, b: seq<Byte>, c: seq<Byte>)
    requires CmpBytes(a, b) <= 0 && CmpBytes(b, c) <= 0
    ensures CmpBytes(a, c) <= 0
  {
    if a != [] && b != [] && c != [] && a[0] == b[0] == c[0] {
      CmpBytesTransitive(a[1..], b[1..], c[1..]);
    }
  }

  // a comes before b, unit by unit: at the first difference it has the smaller one, or it ends.
  ghost predicate Precedes(a: seq<int>, b: seq<int>) {
    exists k: nat :: k <= |a| && k < |b| && a[..k] == b[..k] && (k == |a| || a[k] < b[k])
  }

  lemma {:induction false} CmpBytesExactly(a: seq<Byte>, b: seq<Byte>)
    ensures CmpBytes(a, b) < 0 <==> Precedes(a, b)
    ensures CmpBytes(a, b) > 0 <==> Precedes(b, a)
  {
    CmpBytesSigns(a, b);
    PrecedesMeans(a, b);
    PrecedesMeans(b, a);
  }

  lemma {:induction false} PrecedesMeans(a: seq<Byte>, b: seq<Byte>)
    ensures CmpBytes(a, b) < 0 <==> Precedes(a, b)
  {
    if a == [] || b == [] {
      assert b != [] ==> a[..0] == b[..0];
    } else if a[0] != b[0] {
      assert a[..0] == b[..0];
      forall k: nat | 0 < k <= |a| && k < |b| ensures a[..k] != b[..k] {
        assert a[..k][0] != b[..k][0];
      }
    } else {
      PrecedesMeans(a[1..], b[1..]);
      PrecedesShifts(a, b);
    }
  }

  lemma PrecedesShifts(a: seq<int>, b: seq<int>)
    requires a != [] && b != [] && a[0] == b[0]
    ensures Precedes(a, b) <==> Precedes(a[1..], b[1..])
  {
    if k: nat :| k <= |a| && k < |b| && a[..k] == b[..k] && (k == |a| || a[k] < b[k]) {
      assert a[1..][..k - 1] == a[..k][1..] && b[1..][..k - 1] == b[..k][1..];
    }
    var s, t := a[1..], b[1..];
    if k: nat :| k <= |s| && k < |t| && s[..k] == t[..k] && (k == |s| || s[k] < t[k]) {
      assert a[..k + 1] == [a[0]] + s[..k] && b[..k + 1] == [b[0]] + t[..k];
    }
  }
}
