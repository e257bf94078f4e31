// core/src/outeset.ts: the RSET codec, its canonical form, and signing.
module RouteSets {
  import opened Sorting
  import opened Bytes

  const MAGIC: seq<Byte> := [82, 83, 69, 84]  // "RSET"
  const VERSION: Byte := 1

  datatype Record = Record(rrType: int, rrClass: int, ttl: int, rdata: seq<Byte>)
  datatype RouteSet = RouteSet(nsId: int, nameId: seq<Byte>, seqNo: int, exp: int, records: seq<Record>,
                               owner: seq<Byte>, sig: Option<seq<Byte>>)

  // ---------- encoding ----------

  predicate RecordFits(r: Record) {
    0 <= r.rrType < U16 && 0 <= r.rrClass < U16 && 0 <= r.ttl < U32 && |r.rdata| < U16
  }

  predicate Encodable(rs: RouteSet) {
    && |rs.nameId| == 32 && |rs.owner| == 32 && 0 <= rs.nsId < U32
    && (rs.sig.Some? ==> |rs.sig.value| == 64)
    && forall r :: r in rs.records ==> RecordFits(r)
  }

  function RecordBytes(r: Record): seq<Byte> {
    U16le(r.rrType) + U16le(r.rrClass) + U32le(r.ttl) + U16le(|r.rdata|) + r.rdata
  }

  function CompareRecords(a: Record, b: Record): int {
    if a.rrType != b.rrType then a.rrType - b.rrType
    else if a.ttl != b.ttl then a.ttl - b.ttl
    else CmpBytes(a.rdata, b.rdata)
  }

  function RecordOrder(a: Record, b: Record): bool { CompareRecords(a, b) <= 0 }

  function Arrange(rs: RouteSet, canonicalize: bool): RouteSet {
    if canonicalize then rs.(records := Sort(rs.records, RecordOrder)) else rs
  }

  function Header(rs: RouteSet): seq<Byte> {
    MAGIC + [VERSION] + U32le(rs.nsId) + rs.nameId + U64le(rs.seqNo) + U64le(rs.exp) + U32le(|rs.records|)
  }

  function AllBytes(rs: RouteSet): seq<Byte> {
    Header(rs) + Flatten(Map(rs.records, RecordBytes)) + rs.owner + SigBytes(rs.sig)
  }

  function Encode(rs: RouteSet, canonicalize: bool): Outcome<seq<Byte>> {
    if Encodable(rs) then Ok(AllBytes(Arrange(rs, canonicalize))) else Throws
  }

  method EncodeRouteSetV1(rs: RouteSet, canonicalize: bool) returns (r: Outcome<seq<Byte>>)
    ensures r == Encode(rs, canonicalize)
  {
    hide Header;
    hide RecordBytes;
    hide Flatten;
    hide Map;
    hide Sort;
    if |rs.nameId| != 32 || |rs.owner| != 32 || rs.nsId < 0 || rs.nsId > 0xffff_ffff
       || (rs.sig.Some? && |rs.sig.value| != 64) {
      return Throws;
    }
    var a := Arrange(rs, canonicalize);
    ArrangeFits(rs, canonicalize);
    var recParts: seq<seq<Byte>> := [];
    FlattenNone(a.records);
    for i := 0 to |a.records|
      invariant forall q :: q in a.records[..i] ==> RecordFits(q)
      invariant Flatten(recParts) == Flatten(Map(a.records[..i], RecordBytes))
    {
      var q := a.records[i];
      if q.rrType < 0 || q.rrType > 0xffff || q.rrClass < 0 || q.rrClass > 0xffff
         || q.ttl < 0 || q.ttl > 0xffff_ffff || |q.rdata| > 0xffff {
        assert q in a.records && !RecordFits(q);
        return Throws;
      }
      RecordPushed(recParts, a.records, i);
      recParts := recParts + [RecordBytes(q)];
    }
    assert a.records[..|a.records|] == a.records;
    var body := ConcatBytes(recParts + [a.owner]);
    FlattenPush(recParts, a.owner);
    ConcatAssociative(Header(a), Flatten(recParts), a.owner);
    ConcatNothing(Header(a) + body[..]);
    return Ok(if a.sig.Some? then Header(a) + body[..] + a.sig.value else Header(a) + body[..]);
  }

  lemma FlattenNone(xs: seq<Record>)
    ensures Flatten([]) == Flatten(Map(xs[..0], RecordBytes))
  {
  }

  lemma RecordPushed(parts: seq<seq<Byte>>, xs: seq<Record>, i: nat)
    requires i < |xs| && Flatten(parts) == Flatten(Map(xs[..i], RecordBytes))
    ensures Flatten(parts + [RecordBytes(xs[i])]) == Flatten(Map(xs[..i + 1], RecordBytes))
  {
    hide RecordBytes;
    assert Map(xs[..i + 1], RecordBytes) == Map(xs[..i], RecordBytes) + [RecordBytes(xs[i])];
    FlattenPush(Map(xs[..i], RecordBytes), RecordBytes(xs[i]));
    FlattenPush(parts, RecordBytes(xs[i]));
  }

  // ---------- decoding ----------

  function ReadRecord(b: seq<Byte>): nat -> Step<Record> {
    (off: nat) =>
      if off + 10 > |b| then Fail
      else
        var rlen := FromLe(b[off + 8..off + 10]);
        Next(Record(FromLe(b[off..off + 2]), FromLe(b[off + 2..off + 4]), FromLe(b[off + 4..off + 8]),
                    Slice(b, off + 10, off + 10 + rlen)), off + 10 + rlen)
  }

  function Decode(b: seq<Byte>): Outcome<RouteSet> {
    if Slice(b, 0, 4) != MAGIC || Slice(b, 4, 5) != [VERSION] || |b| < 61 then Throws
    else
      match ReadMany(ReadRecord(b), 61, FromLe(b[57..61]))
      case Fail => Throws
      case NotANumber => Throws
      case Next(records, off) =>
        var sig := if off + 96 <= |b| then Some(Slice(b, off + 32, off + 96)) else None;
        Ok(RouteSet(FromLe(b[5..9]), Slice(b, 9, 41), FromLe(b[41..49]), FromLe(b[49..57]), records,
                    Slice(b, off, off + 32), sig))
  }

  method DecodeRouteSetV1(b: seq<Byte>) returns (r: Outcome<RouteSet>)
    ensures r == Decode(b)
  {
    hide ReadMany;
    hide FromLe;
    hide Slice;
    hide Prepend;
    if Slice(b, 0, 4) != MAGIC || Slice(b, 4, 5) != [VERSION] {
      return Throws;
    }
    var nsId, seqNo, exp, count := Read(b, 5, 4), Read(b, 41, 8), Read(b, 49, 8), Read(b, 57, 4);
    if nsId.Throws? || seqNo.Throws? || exp.Throws? || count.Throws? {
      return Throws;
    }
    var n := count.value;
    var records: seq<Record>, off: nat := [], 61;
    PrependEnds(ReadRecord(b), off, records, ReadMany(ReadRecord(b), 61, n));
    for i := 0 to n
      invariant ReadMany(ReadRecord(b), 61, n) == Prepend(records, ReadMany(ReadRecord(b), off, n - i))
    {
      ReadManyStep(ReadRecord(b), off, n - i, records);
      var rrType, rrClass, ttl, rlen := Read(b, off, 2), Read(b, off + 2, 2), Read(b, off + 4, 4), Read(b, off + 8, 2);
      if rrType.Throws? || rrClass.Throws? || ttl.Throws? || rlen.Throws? {
        return Throws;
      }
      off := off + 10;
      var rdata := Slice(b, off, off + rlen.value);
      off := off + rlen.value;
      records := records + [Record(rrType.value, rrClass.value, ttl.value, rdata)];
    }
    PrependEnds(ReadRecord(b), off, records, Fail);
    var owner := Slice(b, off, off + 32);
    off := off + 32;
    var sig := if off + 64 <= |b| then Some(Slice(b, off, off + 64)) else None;
    return Ok(RouteSet(nsId.value, Slice(b, 9, 41), seqNo.value, exp.value, records, owner, sig));
  }

  // ---------- the round trip, exactly ----------

  function Same(r: Record): Record { r }

  lemma ReadRecordAt(b: seq<Byte>, o: nat, r: Record)
    requires RecordFits(r) && At(b, o, RecordBytes(r))
    ensures ReadRecord(b)(o) == Next(Same(r), o + |RecordBytes(r)|)
  {
    hide At;
    hide ToLe;
    hide FromLe;
    hide Pow256;
    hide Slice;
    hide Read;
    hide RecordBytes;
    RecordFieldsAt(b, o, r);
    AtSlice(b, o + 10, r.rdata);
  }

  lemma RecordFieldsAt(b: seq<Byte>, o: nat, r: Record)
    requires RecordFits(r) && At(b, o, RecordBytes(r))
    ensures |RecordBytes(r)| == 10 + |r.rdata|
    ensures o + 10 <= |b|
    ensures FromLe(b[o..o + 2]) == r.rrType && FromLe(b[o + 2..o + 4]) == r.rrClass
    ensures FromLe(b[o + 4..o + 8]) == r.ttl && FromLe(b[o + 8..o + 10]) == |r.rdata|
    ensures At(b, o + 10, r.rdata)
  {
    hide At;
    hide ToLe;
    hide FromLe;
    hide Pow256;
    hide Read;
    var h1 := U16le(r.rrType);
    var h2 := h1 + U16le(r.rrClass);
    var h3 := h2 + U32le(r.ttl);
    var h4 := h3 + U16le(|r.rdata|);
    AtSplit(b, o, h4, r.rdata);
    AtSplit(b, o, h3, U16le(|r.rdata|));
    AtSplit(b, o, h2, U32le(r.ttl));
    AtSplit(b, o, h1, U16le(r.rrClass));
    PowValues();
    ReadsBack(b, o, r.rrType, 2);
    ReadsBack(b, o + 2, r.rrClass, 2);
    ReadsBack(b, o + 4, r.ttl, 4);
    ReadsBack(b, o + 8, |r.rdata|, 2);
  }

  lemma MapSame(xs: seq<Record>)
    ensures Map(xs, Same) == xs
  {
  }

  lemma ReadRecordsAt(b: seq<Byte>, rs: RouteSet)
    requires Encodable(rs) && At(b, 61, Flatten(Map(rs.records, RecordBytes)))
    ensures ReadMany(ReadRecord(b), 61, |rs.records|)
         == Next(rs.records, 61 + |Flatten(Map(rs.records, RecordBytes))|)
  {
    hide RecordBytes;
    hide ReadMany;
    hide Flatten;
    hide At;
    hide ReadRecord;
    forall r, q: nat | r in rs.records && At(b, q, RecordBytes(r))
      ensures ReadRecord(b)(q) == Next(Same(r), q + |RecordBytes(r)|)
    {
      ReadRecordAt(b, q, r);
    }
    ReadManyUndoes(ReadRecord(b), b, 61, rs.records, RecordBytes, Same);
    MapSame(rs.records);
  }

  lemma HeaderAt(b: seq<Byte>, rs: RouteSet)
    requires |rs.nameId| == 32 && 0 <= rs.nsId < U32
    requires At(b, 0, Header(rs))
    ensures |b| >= 61 && Slice(b, 0, 4) == MAGIC && Slice(b, 4, 5) == [VERSION]
    ensures FromLe(b[5..9]) == rs.nsId && Slice(b, 9, 41) == rs.nameId
    ensures FromLe(b[41..49]) == rs.seqNo % U64 && FromLe(b[49..57]) == rs.exp % U64
    ensures FromLe(b[57..61]) == |rs.records| % U32
  {
    hide At;
    hide FromLe;
    hide ToLe;
    hide Pow256;
    hide Slice;
    hide Read;
    var h1 := MAGIC + [VERSION];
    var h2 := h1 + U32le(rs.nsId);
    var h3 := h2 + rs.nameId;
    var h4 := h3 + U64le(rs.seqNo);
    var h5 := h4 + U64le(rs.exp);
    AtSplit(b, 0, h5, U32le(|rs.records|));
    AtSplit(b, 0, h4, U64le(rs.exp));
    AtSplit(b, 0, h3, U64le(rs.seqNo));
    AtSplit(b, 0, h2, rs.nameId);
    AtSplit(b, 0, h1, U32le(rs.nsId));
    AtSplit(b, 0, MAGIC, [VERSION]);
    AtSlice(b, 0, MAGIC);
    AtSlice(b, 4, [VERSION]);
    AtSlice(b, 9, rs.nameId);
    ReadAt(b, 5, rs.nsId, 4);
    ReadAt(b, 41, rs.seqNo, 8);
    ReadAt(b, 49, rs.exp, 8);
    ReadAt(b, 57, |rs.records|, 4);
    PowValues();
  }

  lemma PartsAt(rs: RouteSet)
    requires |rs.nameId| == 32
    ensures var b, recs := AllBytes(rs), Flatten(Map(rs.records, RecordBytes));
            && At(b, 0, Header(rs)) && At(b, 61, recs) && At(b, 61 + |recs|, rs.owner)
            && At(b, 61 + |recs| + |rs.owner|, SigBytes(rs.sig))
            && |b| == 61 + |recs| + |rs.owner| + |SigBytes(rs.sig)|
  {
    hide At;
    hide Flatten;
    hide Map;
    hide ToLe;
    var b, recs := AllBytes(rs), Flatten(Map(rs.records, RecordBytes));
    AtStart(b);
    AtSplit(b, 0, Header(rs) + recs + rs.owner, SigBytes(rs.sig));
    AtSplit(b, 0, Header(rs) + recs, rs.owner);
    AtSplit(b, 0, Header(rs), recs);
  }

  lemma DecodeBytes(rs: RouteSet)
    requires Encodable(rs) && |rs.records| < U32
    ensures Decode(AllBytes(rs)) == Ok(rs.(seqNo := rs.seqNo % U64, exp := rs.exp % U64))
  {
    hide At;
    hide Flatten;
    hide Map;
    hide ReadMany;
    hide Slice;
    hide ToLe;
    hide FromLe;
    hide RecordBytes;
    hide ReadRecord;
    hide AllBytes;
    hide Header;
    var b := AllBytes(rs);
    var o := 61 + |Flatten(Map(rs.records, RecordBytes))|;
    PartsAt(rs);
    HeaderAt(b, rs);
    ReadRecordsAt(b, rs);
    AtSlice(b, o, rs.owner);
    AtSlice(b, o + 32, SigBytes(rs.sig));
  }

  predicate WellFormed(rs: RouteSet) {
    |rs.records| < U32 && 0 <= rs.seqNo < U64 && 0 <= rs.exp < U64
  }

  lemma ArrangeFits(rs: RouteSet, canonicalize: bool)
    ensures var a := Arrange(rs, canonicalize);
            && multiset(a.records) == multiset(rs.records) && |a.records| == |rs.records|
            && (Encodable(a) <==> Encodable(rs)) && (WellFormed(a) <==> WellFormed(rs))
            && (forall r :: r in a.records ==> RecordFits(r)) == (forall r :: r in rs.records ==> RecordFits(r))
  {
    MembersOf(Arrange(rs, canonicalize).records, rs.records);
  }

  lemma DecodedFits(b: seq<Byte>)
    ensures var d := Decode(b);
            d.Ok? ==> WellFormed(d.value) && 0 <= d.value.nsId < U32
                      && (forall r :: r in d.value.records ==> RecordFits(r))
                      && (d.value.sig.Some? ==> |d.value.sig.value| == 64)
  {
    if Decode(b).Ok? {
      PowValues();
      FromLeBound(b[5..9]);
      FromLeBound(b[41..49]);
      FromLeBound(b[49..57]);
      FromLeBound(b[57..61]);
      forall o: nat | ReadRecord(b)(o).Next? ensures RecordFits(ReadRecord(b)(o).value) {
        ReadRecordFits(b, o);
      }
      ReadManyKeeps(ReadRecord(b), 61, FromLe(b[57..61]), RecordFits);
    }
  }

  lemma ReadRecordFits(b: seq<Byte>, o: nat)
    requires o + 10 <= |b|
    ensures RecordFits(ReadRecord(b)(o).value)
  {
    hide FromLe;
    hide Pow256;
    FromLeBound(b[o..o + 2]);
    FromLeBound(b[o + 2..o + 4]);
    FromLeBound(b[o + 4..o + 8]);
    FromLeBound(b[o + 8..o + 10]);
    PowValues();
  }

  lemma RoundTripExactly(rs: RouteSet, canonicalize: bool)
    requires Encodable(rs)
    ensures Decode(Encode(rs, canonicalize).value) == Ok(Arrange(rs, canonicalize)) <==> WellFormed(rs)
  {
    hide Decode;
    hide AllBytes;
    var a := Arrange(rs, canonicalize);
    ArrangeFits(rs, canonicalize);
    if |rs.records| < U32 {
      DecodeBytes(a);
    } else {
      DecodedFits(AllBytes(a));
    }
  }

  // ---------- canonical order ----------

  lemma ComparatorSigns(a: Record, b: Record)
    ensures CompareRecords(a, b) == -CompareRecords(b, a)
    ensures CompareRecords(a, b) == 0 <==> a.(rrClass := b.rrClass) == b
  {
    CmpBytesSigns(a.rdata, b.rdata);
  }

  lemma OrderIsPreorder()
    ensures TotalPreorder(RecordOrder)
  {
    forall a, b ensures RecordOrder(a, b) || RecordOrder(b, a) {
      ComparatorSigns(a, b);
    }
    forall a, b, c | RecordOrder(a, b) && RecordOrder(b, c) ensures RecordOrder(a, c) {
      if a.rrType == b.rrType == c.rrType && a.ttl == b.ttl == c.ttl {
        CmpBytesTransitive(a.rdata, b.rdata, c.rdata);
      }
    }
  }

  lemma RecordsDelimited(xs: seq<Record>)
    requires forall r :: r in xs ==> RecordFits(r)
    ensures SelfDelimiting(xs, RecordBytes)
  {
    hide RecordBytes;
    hide At;
    hide ReadRecord;
    forall x, y, s, t | x in xs && y in xs && RecordBytes(x) + s == RecordBytes(y) + t
      ensures |RecordBytes(x)| == |RecordBytes(y)|
    {
      var b := RecordBytes(x) + s;
      AtStart(b);
      AtSplit(b, 0, RecordBytes(x), s);
      AtSplit(b, 0, RecordBytes(y), t);
      ReadRecordAt(b, 0, x);
      ReadRecordAt(b, 0, y);
    }
  }

  ghost predicate OrderIndependent(rs: RouteSet) {
    forall t: seq<Record> :: multiset(t) == multiset(rs.records)
      ==> Encode(rs.(records := t), true) == Encode(rs, true)
  }

  predicate NoHiddenTies(rs: RouteSet) {
    forall a, b :: a in rs.records && b in rs.records && a.(rrClass := b.rrClass) == b ==> a == b
  }

  lemma RecordUnique(a: Record, b: Record)
    requires RecordFits(a) && RecordFits(b) && RecordBytes(a) == RecordBytes(b)
    ensures a == b
  {
    AtStart(RecordBytes(a));
    ReadRecordAt(RecordBytes(a), 0, a);
    ReadRecordAt(RecordBytes(a), 0, b);
  }

  lemma HiddenTiesAreTies(rs: RouteSet)
    requires Encodable(rs)
    ensures NoHiddenTies(rs) <==> TiesAgree(rs.records, RecordBytes, RecordOrder)
  {
    hide RecordBytes;
    forall a, b ensures Tied(a, b, RecordOrder) <==> a.(rrClass := b.rrClass) == b {
      ComparatorSigns(a, b);
    }
    forall a, b | a in rs.records && b in rs.records ensures RecordBytes(a) == RecordBytes(b) <==> a == b {
      if RecordBytes(a) == RecordBytes(b) {
        RecordUnique(a, b);
      }
    }
  }

  lemma EncodingShows(rs: RouteSet, t: seq<Record>)
    requires Encodable(rs) && multiset(t) == multiset(rs.records)
    ensures Encode(rs.(records := t), true) == Encode(rs, true)
       <==> Map(Sort(t, RecordOrder), RecordBytes) == Map(Sort(rs.records, RecordOrder), RecordBytes)
  {
    hide RecordBytes;
    var u := rs.(records := t);
    var x, y := Arrange(rs, true), Arrange(u, true);
    MembersOf(t, rs.records);
    ArrangeFits(rs, true);
    ArrangeFits(u, true);
    assert Encodable(u) && Header(x) == Header(y);
    if Encode(u, true) == Encode(rs, true) {
      var p, q := Flatten(Map(x.records, RecordBytes)), Flatten(Map(y.records, RecordBytes));
      ConcatNothing(AllBytes(x));
      ConcatNothing(AllBytes(y));
      CutMiddle(Header(x), p, q, rs.owner, SigBytes(rs.sig), []);
      MembersOf(x.records, rs.records);
      MembersOf(y.records, t);
      RecordsDelimited(rs.records);
      FlattenInjective(rs.records, y.records, x.records, RecordBytes);
    }
  }

  // The canonical bytes are the same for every order of the records exactly when no two
  // records differ in their class alone.
  lemma OrderIndependentExactly(rs: RouteSet)
    requires Encodable(rs)
    ensures OrderIndependent(rs) <==> NoHiddenTies(rs)
  {
    hide Encode;
    hide RecordBytes;
    hide Encodable;
    hide NoHiddenTies;
    hide TiesAgree;
    hide TotalPreorder;
    OrderIsPreorder();
    HiddenTiesAreTies(rs);
    OrderFreeExactly(rs.records, RecordBytes, RecordOrder);
    forall t: seq<Record> | multiset(t) == multiset(rs.records)
      ensures Encode(rs.(records := t), true) == Encode(rs, true)
         <==> Map(Sort(t, RecordOrder), RecordBytes) == Map(Sort(rs.records, RecordOrder), RecordBytes)
    {
      EncodingShows(rs, t);
    }
  }

  // ---------- signing and verifying ----------

  // Ed25519 as abstract functions.
  datatype Scheme<!Seed> = Scheme(publicKey: Seed -> seq<Byte>,
                                  sign: (Seed, seq<Byte>) -> seq<Byte>,
                                  verify: (seq<Byte>, seq<Byte>, seq<Byte>) -> bool)
  {
    ghost predicate Correct(seed: Seed) {
      |publicKey(seed)| == 32
      && forall m :: |sign(seed, m)| == 64 && verify(publicKey(seed), m, sign(seed, m))
    }
  }

  function SignRouteSetV1<Seed>(unsigned: RouteSet, seed: Seed, ed: Scheme<Seed>): Outcome<RouteSet>
    requires unsigned.sig.None?
  {
    match Encode(unsigned, true)
    case Throws => Throws
    case Ok(bytesNoSig) => Ok(unsigned.(sig := Some(ed.sign(seed, bytesNoSig))))
  }

  // The comparison of the re-encoded bytes with the given ones.
  predicate PassesCanonicalCheck(b: seq<Byte>) {
    Decode(b).Ok? && Decode(b).value.sig.Some? && Encode(Decode(b).value, true) == Ok(b)
  }

  function VerifyRouteSetV1<Seed>(b: seq<Byte>, requireCanonical: bool, ed: Scheme<Seed>): Outcome<bool> {
    match Decode(b)
    case Throws => Throws
    case Ok(rs) =>
      if rs.sig.None? then Ok(false)
      else if requireCanonical && Encode(rs, true).Throws? then Throws
      else if requireCanonical && Encode(rs, true).value != b then Ok(false)
      else
        assert |b| >= 64;
        Ok(ed.verify(rs.owner, b[..|b| - 64], rs.sig.value))
  }

  lemma SigIsLast(rs: RouteSet, s: seq<Byte>)
    requires Encodable(rs) && rs.sig.None? && |s| == 64
    ensures var b := AllBytes(rs.(sig := Some(s))); |b| >= 64 && b[..|b| - 64] == AllBytes(rs)
  {
    hide Flatten;
    hide Map;
    hide ToLe;
    var front := Header(rs) + Flatten(Map(rs.records, RecordBytes)) + rs.owner;
    assert front + [] == front;
    assert (front + s)[..|front|] == front;
  }

  // What is signed is exactly the final encoding without its last 64 bytes, and the final
  // encoding verifies under the matching key, with the canonical check and without it.
  lemma SignedVerifies<Seed>(unsigned: RouteSet, seed: Seed, ed: Scheme<Seed>, requireCanonical: bool)
    requires unsigned.sig.None? && Encodable(unsigned) && |unsigned.records| < U32
    requires ed.Correct(seed) && unsigned.owner == ed.publicKey(seed)
    ensures var signed := SignRouteSetV1(unsigned, seed, ed).value;
            && Encode(signed, true).Ok?
            && var b := Encode(signed, true).value;
            && |b| >= 64 && Encode(unsigned, true) == Ok(b[..|b| - 64])
            && VerifyRouteSetV1(b, requireCanonical, ed) == Ok(true)
  {
    hide AllBytes;
    hide Decode;
    hide Sort;
    var signed := SignRouteSetV1(unsigned, seed, ed).value;
    var s := signed.sig.value;
    assert |s| == 64 && ed.verify(unsigned.owner, Encode(unsigned, true).value, s);
    ArrangeFits(unsigned, true);
    assert Arrange(signed, true) == Arrange(unsigned, true).(sig := Some(s));
    SigIsLast(Arrange(unsigned, true), s);
    WrapsAlike(signed);
    var w := Wrapped(signed);
    assert Encodable(w) && WellFormed(w);
    RoundTripExactly(w, true);
    ReencodeStable(w);
  }

  // What the 64-bit fields keep.
  function Wrapped(rs: RouteSet): RouteSet {
    rs.(seqNo := rs.seqNo % U64, exp := rs.exp % U64)
  }

  lemma WrapsAlike(rs: RouteSet)
    ensures Encode(Wrapped(rs), true) == Encode(rs, true)
  {
    hide Sort, Flatten, Map;
    hide ToLe, Pow256;
    PowValues();
    LeWraps(rs.seqNo, 8);
    LeWraps(rs.exp, 8);
  }

  lemma ReencodeStable(rs: RouteSet)
    requires Encodable(rs)
    ensures Encode(Arrange(rs, true), true) == Encode(rs, true)
  {
    hide AllBytes;
    ArrangeFits(rs, true);
    OrderIsPreorder();
    SortIdempotent(rs.records, RecordOrder);
  }

  lemma CanonicalAccepted(rs: RouteSet)
    requires Encodable(rs) && WellFormed(rs) && rs.sig.Some?
    ensures PassesCanonicalCheck(Encode(rs, true).value)
  {
    hide Decode;
    hide AllBytes;
    RoundTripExactly(rs, true);
    ReencodeStable(rs);
  }

  ghost predicate IsCanonicalEncoding(b: seq<Byte>, rs: RouteSet) {
    Encodable(rs) && WellFormed(rs) && rs.sig.Some? && Sorted(rs.records, RecordOrder) && b == AllBytes(rs)
  }

  lemma CanonicalOnly(b: seq<Byte>)
    requires PassesCanonicalCheck(b)
    ensures IsCanonicalEncoding(b, Decode(b).value)
  {
    hide Decode;
    hide AllBytes;
    hide Sort;
    var rs := Decode(b).value;
    DecodedFits(b);
    RoundTripExactly(rs, true);
    assert rs == Arrange(rs, true);
    OrderIsPreorder();
    SortSorted(rs.records, RecordOrder);
  }

  // Bytes pass the canonical check exactly when they are the encoding, with nothing in front,
  // between or behind, of one signed route set with sorted records: the one they decode to.
  lemma CanonicalExactly(b: seq<Byte>)
    ensures PassesCanonicalCheck(b) <==> exists rs :: IsCanonicalEncoding(b, rs)
    ensures forall rs :: IsCanonicalEncoding(b, rs) ==> Decode(b) == Ok(rs)
    ensures PassesCanonicalCheck(b) ==> IsCanonicalEncoding(b, Decode(b).value)
  {
    hide Decode;
    hide AllBytes;
    hide Sorted;
    forall rs | IsCanonicalEncoding(b, rs) ensures PassesCanonicalCheck(b) && Decode(b) == Ok(rs) {
      SortOfSorted(rs.records, RecordOrder);
      assert Arrange(rs, true) == rs;
      CanonicalAccepted(rs);
      RoundTripExactly(rs, true);
    }
    if PassesCanonicalCheck(b) {
      CanonicalOnly(b);
    }
  }

  // Without the check, trailing bytes move the signed part: the signature is read in front of
  // them, while the last 64 bytes are cut off.
  lemma TrailingDataShiftsPayload(rs: RouteSet, extra: seq<Byte>)
    requires Encodable(rs) && WellFormed(rs) && rs.sig.Some? && extra != []
    ensures Decode(AllBytes(rs) + extra) == Ok(rs)
    ensures !PassesCanonicalCheck(AllBytes(rs) + extra)
    ensures var b := AllBytes(rs) + extra; |b| >= 64 && b[..|b| - 64] != AllBytes(rs.(sig := None))
  {
    hide At;
    hide Flatten;
    hide Map;
    hide ReadMany;
    hide Slice;
    hide ToLe;
    hide FromLe;
    hide RecordBytes;
    hide ReadRecord;
    hide AllBytes;
    hide Header;
    hide Sort;
    var b := AllBytes(rs) + extra;
    var o := 61 + |Flatten(Map(rs.records, RecordBytes))|;
    PartsAt(rs);
    PartsAt(rs.(sig := None));
    AtLonger(AllBytes(rs), extra, 0, Header(rs));
    AtLonger(AllBytes(rs), extra, 61, Flatten(Map(rs.records, RecordBytes)));
    AtLonger(AllBytes(rs), extra, o, rs.owner);
    AtLonger(AllBytes(rs), extra, o + 32, SigBytes(rs.sig));
    HeaderAt(b, rs);
    ReadRecordsAt(b, rs);
    AtSlice(b, o, rs.owner);
    AtSlice(b, o + 32, SigBytes(rs.sig));
    if PassesCanonicalCheck(b) {
      CanonicalOnly(b);
    }
  }

  lemma AtLonger(b: seq<Byte>, extra: seq<Byte>, o: nat, s: seq<Byte>)
    requires At(b, o, s)
    ensures At(b + extra, o, s)
  {
    assert (b + extra)[o..o + |s|] == b[o..o + |s|];
  }
}
