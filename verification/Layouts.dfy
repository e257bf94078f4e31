// The binary formats of core/src as offset tables, and the canonical orders on the fields
// themselves.
module Layouts {
  import opened Sorting
  import opened Bytes
  import RouteSets
  import Gateway
  import Wire

  // k bytes of n at off, the least significant first.
  ghost predicate LeAt(b: seq<Byte>, off: nat, k: nat, n: int) {
    off + k <= |b| && forall i :: 0 <= i < k ==> b[off + i] == n / Pow256(i) % 256
  }

  ghost predicate ByteAt(b: seq<Byte>, off: nat, x: int) {
    off < |b| && b[off] == x
  }

  lemma LeStands(b: seq<Byte>, off: nat, k: nat, n: int)
    requires At(b, off, ToLe(n, k))
    ensures LeAt(b, off, k, n)
  {
    hide ToLe, Pow256;
    forall i | 0 <= i < k ensures b[off + i] == n / Pow256(i) % 256 {
      LeDigits(n, k, i);
      assert b[off..off + k][i] == ToLe(n, k)[i];
    }
  }

  lemma ByteStands(b: seq<Byte>, off: nat, x: Byte)
    requires At(b, off, [x])
    ensures ByteAt(b, off, x)
  {
    assert b[off..off + 1][0] == x;
  }

  // The items stand one after the other from off on.
  ghost predicate ListAt<T(!new)>(off: nat, xs: seq<T>, stands: (nat, T) -> bool, size: T -> nat)
    decreases |xs|
  {
    xs != [] ==> stands(off, xs[0]) && ListAt(off + size(xs[0]), xs[1..], stands, size)
  }

  function ListEnd<T>(off: nat, xs: seq<T>, size: T -> nat): nat
    decreases |xs|
  {
    if xs == [] then off else ListEnd(off + size(xs[0]), xs[1..], size)
  }

  ghost predicate Shows<T(!new)>(b: seq<Byte>, xs: seq<T>, enc: T -> seq<Byte>, stands: (nat, T) -> bool,
                                 size: T -> nat)
  {
    forall x, q: nat :: x in xs && At(b, q, enc(x)) ==> stands(q, x) && |enc(x)| == size(x)
  }

  lemma {:induction false} ListStands<T(!new)>(b: seq<Byte>, off: nat, xs: seq<T>, enc: T -> seq<Byte>,
                                               stands: (nat, T) -> bool, size: T -> nat)
    requires At(b, off, Flatten(Map(xs, enc))) && Shows(b, xs, enc, stands, size)
    ensures ListAt(off, xs, stands, size) && ListEnd(off, xs, size) == off + |Flatten(Map(xs, enc))|
    decreases |xs|
  {
    hide At;
    if xs != [] {
      var part, rest := enc(xs[0]), Flatten(Map(xs[1..], enc));
      FlattenHead(xs, enc);
      AtSplit(b, off, part, rest);
      assert xs[0] in xs;
      assert forall x :: x in xs[1..] ==> x in xs;
      assert Shows(b, xs[1..], enc, stands, size);
      hide Shows, Map, Flatten;
      ListStands(b, off + |part|, xs[1..], enc, stands, size);
    }
  }

  // ---------- RSET ----------

  // Type, class, TTL, length of the data, data.
  ghost function RecordStands(b: seq<Byte>): (nat, RouteSets.Record) -> bool {
    (off: nat, r: RouteSets.Record) =>
      && LeAt(b, off, 2, r.rrType) && LeAt(b, off + 2, 2, r.rrClass) && LeAt(b, off + 4, 4, r.ttl)
      && LeAt(b, off + 8, 2, |r.rdata|) && At(b, off + 10, r.rdata)
  }

  function RecordSize(): RouteSets.Record -> nat {
    (r: RouteSets.Record) => 10 + |r.rdata|
  }

  lemma RecordShows(b: seq<Byte>, off: nat, r: RouteSets.Record)
    requires At(b, off, RouteSets.RecordBytes(r))
    ensures RecordStands(b)(off, r) && |RouteSets.RecordBytes(r)| == RecordSize()(r)
  {
    hide At, LeAt, ToLe;
    var head := U16le(r.rrType) + U16le(r.rrClass) + U32le(r.ttl);
    AtSplit(b, off, head + U16le(|r.rdata|), r.rdata);
    AtSplit(b, off, head, U16le(|r.rdata|));
    AtSplit(b, off, U16le(r.rrType) + U16le(r.rrClass), U32le(r.ttl));
    AtSplit(b, off, U16le(r.rrType), U16le(r.rrClass));
    LeStands(b, off, 2, r.rrType);
    LeStands(b, off + 2, 2, r.rrClass);
    LeStands(b, off + 4, 4, r.ttl);
    LeStands(b, off + 8, 2, |r.rdata|);
  }

  lemma RecordsShow(b: seq<Byte>, off: nat, rs: seq<RouteSets.Record>)
    requires At(b, off, Flatten(Map(rs, RouteSets.RecordBytes)))
    ensures ListAt(off, rs, RecordStands(b), RecordSize())
    ensures ListEnd(off, rs, RecordSize()) == off + |Flatten(Map(rs, RouteSets.RecordBytes))|
  {
    hide At, RecordStands, RecordSize, RouteSets.RecordBytes;
    forall r, q: nat | r in rs && At(b, q, RouteSets.RecordBytes(r))
      ensures RecordStands(b)(q, r) && |RouteSets.RecordBytes(r)| == RecordSize()(r)
    {
      RecordShows(b, q, r);
    }
    ListStands(b, off, rs, RouteSets.RecordBytes, RecordStands(b), RecordSize());
  }

  // By type, then TTL, then data in byte order; the class does not count.
  ghost predicate RecordBefore(a: RouteSets.Record, b: RouteSets.Record) {
    || a.rrType < b.rrType
    || (a.rrType == b.rrType && a.ttl < b.ttl)
    || (a.rrType == b.rrType && a.ttl == b.ttl && Precedes(a.rdata, b.rdata))
  }

  // The canonical order puts no record behind one that it comes before.
  lemma RecordsOrdered(rs: RouteSets.RouteSet)
    ensures var s := RouteSets.Arrange(rs, true).records;
            multiset(s) == multiset(rs.records) && forall i, j :: 0 <= i < j < |s| ==> !RecordBefore(s[j], s[i])
  {
    hide Precedes;
    var s := RouteSets.Arrange(rs, true).records;
    RouteSets.OrderIsPreorder();
    SortSorted(rs.records, RouteSets.RecordOrder);
    forall i, j | 0 <= i < j < |s| ensures !RecordBefore(s[j], s[i]) {
      CmpBytesExactly(s[j].rdata, s[i].rdata);
      CmpBytesSigns(s[j].rdata, s[i].rdata);
      assert RouteSets.RecordOrder(s[i], s[j]);
    }
  }

  // RSET: magic, version 1, namespace, name id, sequence number, expiry, count, records, owner,
  // and the signature if there is one.
  lemma RouteSetLayout(rs: RouteSets.RouteSet, canonicalize: bool)
    requires RouteSets.Encode(rs, canonicalize).Ok?
    ensures var b, a := RouteSets.Encode(rs, canonicalize).value, RouteSets.Arrange(rs, canonicalize);
            var end := ListEnd(61, a.records, RecordSize());
            && At(b, 0, [82, 83, 69, 84, 1]) && LeAt(b, 5, 4, rs.nsId) && At(b, 9, rs.nameId)
            && LeAt(b, 41, 8, rs.seqNo) && LeAt(b, 49, 8, rs.exp) && LeAt(b, 57, 4, |rs.records|)
            && ListAt(61, a.records, RecordStands(b), RecordSize()) && At(b, end, rs.owner)
            && (rs.sig.Some? ==> At(b, end + 32, rs.sig.value) && |b| == end + 96)
            && (rs.sig.None? ==> |b| == end + 32)
  {
    hide At, LeAt, ToLe, Map, Flatten, Sort;
    var b, a := RouteSets.Encode(rs, canonicalize).value, RouteSets.Arrange(rs, canonicalize);
    RouteSets.ArrangeFits(rs, canonicalize);
    var body := Flatten(Map(a.records, RouteSets.RecordBytes));
    var sig := SigBytes(rs.sig);
    AtStart(b);
    AtSplit(b, 0, RouteSets.Header(a) + body + rs.owner, sig);
    AtSplit(b, 0, RouteSets.Header(a) + body, rs.owner);
    AtSplit(b, 0, RouteSets.Header(a), body);
    var magic := RouteSets.MAGIC + [RouteSets.VERSION];
    var front := magic + U32le(rs.nsId);
    AtSplit(b, 0, front + rs.nameId + U64le(rs.seqNo) + U64le(rs.exp), U32le(|a.records|));
    AtSplit(b, 0, front + rs.nameId + U64le(rs.seqNo), U64le(rs.exp));
    AtSplit(b, 0, front + rs.nameId, U64le(rs.seqNo));
    AtSplit(b, 0, front, rs.nameId);
    AtSplit(b, 0, magic, U32le(rs.nsId));
    LeStands(b, 5, 4, rs.nsId);
    LeStands(b, 41, 8, rs.seqNo);
    LeStands(b, 49, 8, rs.exp);
    LeStands(b, 57, 4, |a.records|);
    RecordsShow(b, 61, a.records);
    assert magic == [82, 83, 69, 84, 1];
  }

  // ---------- GWRT ----------

  // A wildcard is the byte 2 and a 0; an exact label the byte 1, its length and the low byte of
  // each code unit.
  ghost function LabelStands(b: seq<Byte>): (nat, Gateway.Label) -> bool {
    (off: nat, l: Gateway.Label) =>
      match l
      case Wildcard => ByteAt(b, off, 2) && ByteAt(b, off + 1, 0)
      case Exact(s) => ByteAt(b, off, 1) && ByteAt(b, off + 1, |s|) && At(b, off + 2, Ascii(s))
                       && forall i :: 0 <= i < |s| ==> Ascii(s)[i] == s[i] % 256
  }

  function LabelSize(): Gateway.Label -> nat {
    (l: Gateway.Label) => match l case Wildcard => 2 case Exact(s) => 2 + |s|
  }

  lemma LabelShows(b: seq<Byte>, off: nat, l: Gateway.Label)
    requires Gateway.LabelFits(l) && At(b, off, Gateway.LabelBytes(l))
    ensures LabelStands(b)(off, l) && |Gateway.LabelBytes(l)| == LabelSize()(l)
  {
    hide At;
    match l
    case Wildcard =>
      AtByte(b, off, [2, 0], 0);
      AtByte(b, off, [2, 0], 1);
    case Exact(s) =>
      AtSplit(b, off, [1, |s| % 256], Ascii(s));
      AtByte(b, off, [1, |s| % 256], 0);
      AtByte(b, off, [1, |s| % 256], 1);
      assert ByteAt(b, off, 1) && ByteAt(b, off + 1, |s|);
      assert At(b, off + 2, Ascii(s));
      assert forall i :: 0 <= i < |s| ==> Ascii(s)[i] == s[i] % 256;
  }

  lemma LabelsShow(b: seq<Byte>, off: nat, p: seq<Gateway.Label>)
    requires At(b, off, Gateway.PatternBytes(p)) && forall l :: l in p ==> Gateway.LabelFits(l)
    ensures ListAt(off, p, LabelStands(b), LabelSize())
    ensures ListEnd(off, p, LabelSize()) == off + |Gateway.PatternBytes(p)|
  {
    hide At, LabelStands, LabelSize, Gateway.LabelBytes, Gateway.LabelFits;
    forall l, q: nat | l in p && At(b, q, Gateway.LabelBytes(l))
      ensures LabelStands(b)(q, l) && |Gateway.LabelBytes(l)| == LabelSize()(l)
    {
      LabelShows(b, q, l);
    }
    ListStands(b, off, p, Gateway.LabelBytes, LabelStands(b), LabelSize());
  }

  // The low byte of the kind, the length, the data.
  ghost function TargetStands(b: seq<Byte>): (nat, Gateway.Target) -> bool {
    (off: nat, t: Gateway.Target) =>
      ByteAt(b, off, t.kind % 256) && LeAt(b, off + 1, 2, |t.data|) && At(b, off + 3, t.data)
  }

  function TargetSize(): Gateway.Target -> nat {
    (t: Gateway.Target) => 3 + |t.data|
  }

  lemma TargetShows(b: seq<Byte>, off: nat, t: Gateway.Target)
    requires At(b, off, Gateway.TargetBytes(t))
    ensures TargetStands(b)(off, t) && |Gateway.TargetBytes(t)| == TargetSize()(t)
  {
    hide At, LeAt, ToLe, ByteAt;
    AtSplit(b, off, [t.kind % 256] + U16le(|t.data|), t.data);
    AtSplit(b, off, [t.kind % 256], U16le(|t.data|));
    ByteStands(b, off, t.kind % 256);
    LeStands(b, off + 1, 2, |t.data|);
  }

  // The id, the number of targets, the targets.
  ghost function SetStands(b: seq<Byte>): (nat, Gateway.GatewaySet) -> bool {
    (off: nat, s: Gateway.GatewaySet) =>
      && LeAt(b, off, 4, s.id) && ByteAt(b, off + 4, |s.targets|)
      && ListAt(off + 5, s.targets, TargetStands(b), TargetSize())
  }

  function SetSize(): Gateway.GatewaySet -> nat {
    (s: Gateway.GatewaySet) => ListEnd(5, s.targets, TargetSize())
  }

  lemma {:induction false} ListEndMoves<T>(off: nat, d: nat, xs: seq<T>, size: T -> nat)
    ensures ListEnd(off + d, xs, size) == ListEnd(off, xs, size) + d
    decreases |xs|
  {
    if xs != [] {
      ListEndMoves(off + size(xs[0]), d, xs[1..], size);
    }
  }

  lemma SetShows(b: seq<Byte>, off: nat, s: Gateway.GatewaySet)
    requires Gateway.SetFits(s) && At(b, off, Gateway.SetBytes(s))
    ensures SetStands(b)(off, s) && |Gateway.SetBytes(s)| == SetSize()(s)
  {
    hide At, LeAt, ToLe, ByteAt, TargetStands, TargetSize, Gateway.TargetBytes, Map, Flatten;
    var body := Flatten(Map(s.targets, Gateway.TargetBytes));
    AtSplit(b, off, U32le(s.id) + [|s.targets| % 256], body);
    AtSplit(b, off, U32le(s.id), [|s.targets| % 256]);
    LeStands(b, off, 4, s.id);
    ByteStands(b, off + 4, |s.targets| % 256);
    forall t, q: nat | t in s.targets && At(b, q, Gateway.TargetBytes(t))
      ensures TargetStands(b)(q, t) && |Gateway.TargetBytes(t)| == TargetSize()(t)
    {
      TargetShows(b, q, t);
    }
    ListStands(b, off + 5, s.targets, Gateway.TargetBytes, TargetStands(b), TargetSize());
    ListEndMoves(5, off, s.targets, TargetSize());
  }

  // The low bytes of priority and flags, the number of labels, the labels, the set id.
  ghost function RuleStands(b: seq<Byte>): (nat, Gateway.Rule) -> bool {
    (off: nat, r: Gateway.Rule) =>
      && ByteAt(b, off, r.priority % 256) && ByteAt(b, off + 1, r.flags % 256) && ByteAt(b, off + 2, |r.pattern|)
      && ListAt(off + 3, r.pattern, LabelStands(b), LabelSize())
      && LeAt(b, ListEnd(off + 3, r.pattern, LabelSize()), 4, r.setId)
  }

  function RuleSize(): Gateway.Rule -> nat {
    (r: Gateway.Rule) => ListEnd(3, r.pattern, LabelSize()) + 4
  }

  lemma RuleShows(b: seq<Byte>, off: nat, r: Gateway.Rule)
    requires Gateway.RuleFits(r) && At(b, off, Gateway.RuleBytes(r))
    ensures RuleStands(b)(off, r) && |Gateway.RuleBytes(r)| == RuleSize()(r)
  {
    hide At, LeAt, ToLe, LabelStands, LabelSize, Gateway.PatternBytes;
    var head: seq<Byte> := [r.priority % 256, r.flags % 256, |r.pattern| % 256];
    var patt := Gateway.PatternBytes(r.pattern);
    AtSplit(b, off, head + patt, U32le(r.setId));
    AtSplit(b, off, head, patt);
    AtByte(b, off, head, 0);
    AtByte(b, off, head, 1);
    AtByte(b, off, head, 2);
    LabelsShow(b, off + 3, r.pattern);
    LeStands(b, off + 3 + |patt|, 4, r.setId);
    ListEndMoves(3, off, r.pattern, LabelSize());
    assert ByteAt(b, off, r.priority % 256) && ByteAt(b, off + 1, r.flags % 256) && ByteAt(b, off + 2, |r.pattern|);
    assert |Gateway.RuleBytes(r)| == RuleSize()(r);
    assert ListAt(off + 3, r.pattern, LabelStands(b), LabelSize());
    assert LeAt(b, ListEnd(off + 3, r.pattern, LabelSize()), 4, r.setId);
  }

  lemma SetsShow(b: seq<Byte>, off: nat, sets: seq<Gateway.GatewaySet>)
    requires At(b, off, Flatten(Map(sets, Gateway.SetBytes))) && forall s :: s in sets ==> Gateway.SetFits(s)
    ensures ListAt(off, sets, SetStands(b), SetSize())
    ensures ListEnd(off, sets, SetSize()) == off + |Flatten(Map(sets, Gateway.SetBytes))|
  {
    hide At, SetStands, SetSize, Gateway.SetBytes, Gateway.SetFits;
    forall s, q: nat | s in sets && At(b, q, Gateway.SetBytes(s))
      ensures SetStands(b)(q, s) && |Gateway.SetBytes(s)| == SetSize()(s)
    {
      SetShows(b, q, s);
    }
    ListStands(b, off, sets, Gateway.SetBytes, SetStands(b), SetSize());
  }

  lemma RulesShow(b: seq<Byte>, off: nat, rules: seq<Gateway.Rule>)
    requires At(b, off, Flatten(Map(rules, Gateway.RuleBytes))) && forall r :: r in rules ==> Gateway.RuleFits(r)
    ensures ListAt(off, rules, RuleStands(b), RuleSize())
    ensures ListEnd(off, rules, RuleSize()) == off + |Flatten(Map(rules, Gateway.RuleBytes))|
  {
    hide At, RuleStands, RuleSize, Gateway.RuleBytes, Gateway.RuleFits;
    forall r, q: nat | r in rules && At(b, q, Gateway.RuleBytes(r))
      ensures RuleStands(b)(q, r) && |Gateway.RuleBytes(r)| == RuleSize()(r)
    {
      RuleShows(b, q, r);
    }
    ListStands(b, off, rules, Gateway.RuleBytes, RuleStands(b), RuleSize());
  }

  // GWRT: magic, version 1, namespace, parent, sequence number, expiry, the two counts, sets,
  // rules, owner, and the signature if there is one.
  lemma GatewayLayout(g: Gateway.Routes, canonicalize: bool)
    requires Gateway.Encode(g, canonicalize).Ok?
    ensures var b, a := Gateway.Encode(g, canonicalize).value, Gateway.Arrange(g, canonicalize);
            var mid := ListEnd(61, a.sets, SetSize());
            var end := ListEnd(mid, a.rules, RuleSize());
            && At(b, 0, [71, 87, 82, 84, 1]) && LeAt(b, 5, 4, g.nsId) && At(b, 9, g.parent)
            && LeAt(b, 41, 8, g.gSeq) && LeAt(b, 49, 8, g.gExp)
            && LeAt(b, 57, 2, |g.sets|) && LeAt(b, 59, 2, |g.rules|)
            && ListAt(61, a.sets, SetStands(b), SetSize()) && ListAt(mid, a.rules, RuleStands(b), RuleSize())
            && At(b, end, g.owner)
            && (g.sig.Some? ==> At(b, end + 32, g.sig.value) && |b| == end + 96)
            && (g.sig.None? ==> |b| == end + 32)
  {
    hide At, LeAt, ToLe, Map, Flatten, Sort, SetStands, SetSize, RuleStands, RuleSize;
    hide Gateway.SetFits, Gateway.RuleFits;
    var b, a := Gateway.Encode(g, canonicalize).value, Gateway.Arrange(g, canonicalize);
    Gateway.ArrangeFits(g, canonicalize);
    MembersOf(a.sets, g.sets);
    MembersOf(a.rules, g.rules);
    Gateway.PartsAt(a);
    GatewayHeader(b, a);
    SetsShow(b, 61, a.sets);
    RulesShow(b, 61 + |Flatten(Map(a.sets, Gateway.SetBytes))|, a.rules);
  }

  lemma GatewayHeader(b: seq<Byte>, g: Gateway.Routes)
    requires At(b, 0, Gateway.Header(g)) && |g.parent| == 32
    ensures At(b, 0, [71, 87, 82, 84, 1]) && LeAt(b, 5, 4, g.nsId) && At(b, 9, g.parent)
    ensures LeAt(b, 41, 8, g.gSeq) && LeAt(b, 49, 8, g.gExp) && LeAt(b, 57, 2, |g.sets|) && LeAt(b, 59, 2, |g.rules|)
  {
    hide At, LeAt, ToLe;
    var h1 := Gateway.GW_MAGIC + [Gateway.GW_VERSION];
    var h2 := h1 + U32le(g.nsId);
    var h3 := h2 + g.parent;
    var h4 := h3 + U64le(g.gSeq);
    var h5 := h4 + U64le(g.gExp);
    AtSplit(b, 0, h5 + U16le(|g.sets|), U16le(|g.rules|));
    AtSplit(b, 0, h5, U16le(|g.sets|));
    AtSplit(b, 0, h4, U64le(g.gExp));
    AtSplit(b, 0, h3, U64le(g.gSeq));
    AtSplit(b, 0, h2, g.parent);
    AtSplit(b, 0, h1, U32le(g.nsId));
    LeStands(b, 5, 4, g.nsId);
    LeStands(b, 41, 8, g.gSeq);
    LeStands(b, 49, 8, g.gExp);
    LeStands(b, 57, 2, |g.sets|);
    LeStands(b, 59, 2, |g.rules|);
    assert h1 == [71, 87, 82, 84, 1];
  }

  // By the number of labels, then the pattern's bytes, then the set, then the priority.
  ghost predicate RuleBefore(a: Gateway.Rule, b: Gateway.Rule) {
    var x, y := Gateway.PatternBytes(a.pattern), Gateway.PatternBytes(b.pattern);
    || |a.pattern| < |b.pattern|
    || (|a.pattern| == |b.pattern| && Precedes(x, y))
    || (|a.pattern| == |b.pattern| && x == y && a.setId < b.setId)
    || (|a.pattern| == |b.pattern| && x == y && a.setId == b.setId && a.priority < b.priority)
  }

  // The canonical order puts no set and no rule behind one that it comes before.
  lemma GatewayOrdered(g: Gateway.Routes)
    ensures var sets, rules := Gateway.Arrange(g, true).sets, Gateway.Arrange(g, true).rules;
            && multiset(sets) == multiset(g.sets) && multiset(rules) == multiset(g.rules)
            && (forall i, j :: 0 <= i < j < |sets| ==> sets[i].id <= sets[j].id)
            && (forall i, j :: 0 <= i < j < |rules| ==> !RuleBefore(rules[j], rules[i]))
  {
    hide RuleBefore;
    var sets, rules := Gateway.Arrange(g, true).sets, Gateway.Arrange(g, true).rules;
    Gateway.OrdersArePreorders();
    SortSorted(g.sets, Gateway.SetOrder);
    SortSorted(g.rules, Gateway.RuleOrder);
    forall i, j | 0 <= i < j < |sets| ensures sets[i].id <= sets[j].id {
      assert Gateway.SetOrder(sets[i], sets[j]);
    }
    forall i, j | 0 <= i < j < |rules| ensures !RuleBefore(rules[j], rules[i]) {
      assert Gateway.RuleOrder(rules[i], rules[j]);
      NotBefore(rules[i], rules[j]);
    }
  }

  lemma NotBefore(a: Gateway.Rule, b: Gateway.Rule)
    requires Gateway.RuleOrder(a, b)
    ensures !RuleBefore(b, a)
  {
    hide Precedes, Gateway.PatternBytes;
    var x, y := Gateway.PatternBytes(a.pattern), Gateway.PatternBytes(b.pattern);
    CmpBytesExactly(x, y);
    CmpBytesSigns(x, y);
  }

  // ---------- DDNS packets ----------

  // Magic, version 1, type, flags, request, namespace, length of the payload, four zeros, payload.
  lemma PacketLayout(p: Wire.Packet)
    requires Wire.EncodePacket(p).Ok?
    ensures var b, h := Wire.EncodePacket(p).value, p.header;
            && At(b, 0, [68, 68, 78, 83]) && ByteAt(b, 4, 1) && ByteAt(b, 5, h.msgType) && LeAt(b, 6, 2, h.flags)
            && LeAt(b, 8, 4, h.reqId) && LeAt(b, 12, 4, h.nsId) && LeAt(b, 16, 4, |p.payload|) && LeAt(b, 20, 4, 0)
            && At(b, 24, p.payload) && |b| == 24 + |p.payload|
  {
    hide At, LeAt, ToLe, ByteAt;
    var b, h := Wire.EncodePacket(p).value, Wire.Sized(p).header;
    var nsOn := U32le(h.nsId) + (U32le(h.payloadLen) + U32le(0));
    var flagsOn := U16le(h.flags) + (U32le(h.reqId) + nsOn);
    AtStart(b);
    AtSplit(b, 0, Wire.HeaderBytes(h), p.payload);
    AtSplit(b, 0, Wire.MAGIC, [h.version] + ([h.msgType] + flagsOn));
    AtSplit(b, 4, [h.version], [h.msgType] + flagsOn);
    AtSplit(b, 5, [h.msgType], flagsOn);
    AtSplit(b, 6, U16le(h.flags), U32le(h.reqId) + nsOn);
    AtSplit(b, 8, U32le(h.reqId), nsOn);
    AtSplit(b, 12, U32le(h.nsId), U32le(h.payloadLen) + U32le(0));
    AtSplit(b, 16, U32le(h.payloadLen), U32le(0));
    ByteStands(b, 4, h.version);
    ByteStands(b, 5, h.msgType);
    LeStands(b, 6, 2, h.flags);
    LeStands(b, 8, 4, h.reqId);
    LeStands(b, 12, 4, h.nsId);
    LeStands(b, 16, 4, h.payloadLen);
    LeStands(b, 20, 4, 0);
  }

  // Where the fields of each payload stand.
  ghost predicate PayloadStands(b: seq<Byte>, p: Wire.Payload, msg: seq<Byte>) {
    match p
    case Qry(nameId, qtype, minSeq) => At(b, 0, nameId) && LeAt(b, 32, 2, qtype) && LeAt(b, 34, 8, minSeq) && |b| == 42
    case Ans(status, body) => ByteAt(b, 0, status) && LeAt(b, 1, 4, |body|) && At(b, 5, body) && |b| == 5 + |body|
    case Anc(status, body) => ByteAt(b, 0, status) && LeAt(b, 1, 4, |body|) && At(b, 5, body) && |b| == 5 + |body|
    case Not(code, retry, _) =>
      LeAt(b, 0, 2, code) && LeAt(b, 2, 4, retry) && LeAt(b, 6, 2, |msg|) && At(b, 8, msg) && |b| == 8 + |msg|
    case Gsp(nameId, seq_, exp, hash, hops) =>
      && At(b, 0, nameId) && LeAt(b, 32, 8, seq_) && LeAt(b, 40, 8, exp) && At(b, 48, hash) && ByteAt(b, 80, hops)
      && |b| == 88 && forall i :: 81 <= i < 88 ==> b[i] == 0
    case GetByNameSeq(nameId, seq_) =>
      ByteAt(b, 0, 1) && At(b, 8, nameId) && LeAt(b, 40, 8, seq_) && |b| == 80
      && forall i :: 1 <= i < 8 || 48 <= i < 80 ==> b[i] == 0
    case GetByHash(hash) =>
      ByteAt(b, 0, 2) && At(b, 48, hash) && |b| == 80 && forall i :: 1 <= i < 48 ==> b[i] == 0
    case Put(body) => LeAt(b, 0, 4, |body|) && At(b, 4, body) && |b| == 4 + |body|
  }

  lemma ZerosStand(b: seq<Byte>, off: nat, n: nat)
    requires At(b, off, Zeros(n))
    ensures off + n <= |b| && forall i :: off <= i < off + n ==> b[i] == 0
  {
    forall i | off <= i < off + n ensures b[i] == 0 {
      assert b[off..off + n][i - off] == b[i];
    }
  }

  lemma QueryStands(t: Wire.Text, p: Wire.Payload)
    requires p.Qry? && Wire.EncodePayload(t, p).Ok?
    ensures PayloadStands(Wire.EncodePayload(t, p).value, p, [])
  {
    hide At, LeAt, ToLe;
    var b := Wire.EncodePayload(t, p).value;
    AtStart(b);
    AtSplit(b, 0, p.nameId, U16le(p.qtype) + U64le(p.minSeq));
    AtSplit(b, 32, U16le(p.qtype), U64le(p.minSeq));
    LeStands(b, 32, 2, p.qtype);
    LeStands(b, 34, 8, p.minSeq);
  }

  lemma BodyStands(b: seq<Byte>, off: nat, body: seq<Byte>)
    requires At(b, off, U32le(|body|) + body)
    ensures LeAt(b, off, 4, |body|) && At(b, off + 4, body)
  {
    hide At, LeAt, ToLe;
    AtSplit(b, off, U32le(|body|), body);
    LeStands(b, off, 4, |body|);
  }

  lemma StatusStands(b: seq<Byte>, status: Byte, body: seq<Byte>)
    requires b == [status] + (U32le(|body|) + body)
    ensures ByteAt(b, 0, status) && LeAt(b, 1, 4, |body|) && At(b, 5, body) && |b| == 5 + |body|
  {
    hide At, LeAt, ToLe, ByteAt;
    AtStart(b);
    AtSplit(b, 0, [status], U32le(|body|) + body);
    ByteStands(b, 0, status);
    BodyStands(b, 1, body);
  }

  lemma NoticeStands(b: seq<Byte>, code: int, retry: int, msg: seq<Byte>)
    requires b == U16le(code) + (U32le(retry) + (U16le(|msg|) + msg))
    ensures LeAt(b, 0, 2, code) && LeAt(b, 2, 4, retry) && LeAt(b, 6, 2, |msg|) && At(b, 8, msg) && |b| == 8 + |msg|
  {
    hide At, LeAt, ToLe;
    AtStart(b);
    AtSplit(b, 0, U16le(code), U32le(retry) + (U16le(|msg|) + msg));
    AtSplit(b, 2, U32le(retry), U16le(|msg|) + msg);
    AtSplit(b, 6, U16le(|msg|), msg);
    LeStands(b, 0, 2, code);
    LeStands(b, 2, 4, retry);
    LeStands(b, 6, 2, |msg|);
  }

  lemma GossipStands(t: Wire.Text, p: Wire.Payload)
    requires p.Gsp? && Wire.EncodePayload(t, p).Ok?
    ensures PayloadStands(Wire.EncodePayload(t, p).value, p, [])
  {
    hide At, LeAt, ToLe, ByteAt, Zeros;
    var b := Wire.EncodePayload(t, p).value;
    var hashOn := p.routesetHash + ([p.hops] + Zeros(7));
    AtStart(b);
    AtSplit(b, 0, p.nameId, U64le(p.seq_) + (U64le(p.exp) + hashOn));
    AtSplit(b, 32, U64le(p.seq_), U64le(p.exp) + hashOn);
    AtSplit(b, 40, U64le(p.exp), hashOn);
    AtSplit(b, 48, p.routesetHash, [p.hops] + Zeros(7));
    AtSplit(b, 80, [p.hops], Zeros(7));
    LeStands(b, 32, 8, p.seq_);
    LeStands(b, 40, 8, p.exp);
    ByteStands(b, 80, p.hops);
    ZerosStand(b, 81, 7);
  }

  lemma GetsStand(t: Wire.Text, p: Wire.Payload)
    requires (p.GetByNameSeq? || p.GetByHash?) && Wire.EncodePayload(t, p).Ok?
    ensures PayloadStands(Wire.EncodePayload(t, p).value, p, [])
  {
    hide At, LeAt, ToLe, ByteAt, Zeros;
    var b := Wire.EncodePayload(t, p).value;
    AtStart(b);
    if p.GetByNameSeq? {
      var nameOn := p.nameId + (U64le(p.seq_) + Zeros(32));
      AtSplit(b, 0, [1], Zeros(7) + nameOn);
      AtSplit(b, 1, Zeros(7), nameOn);
      AtSplit(b, 8, p.nameId, U64le(p.seq_) + Zeros(32));
      AtSplit(b, 40, U64le(p.seq_), Zeros(32));
      ByteStands(b, 0, 1);
      ZerosStand(b, 1, 7);
      LeStands(b, 40, 8, p.seq_);
      ZerosStand(b, 48, 32);
    } else {
      AtSplit(b, 0, [2], Zeros(7) + (Zeros(32) + (U64le(0) + p.hash)));
      AtSplit(b, 1, Zeros(7), Zeros(32) + (U64le(0) + p.hash));
      AtSplit(b, 8, Zeros(32), U64le(0) + p.hash);
      AtSplit(b, 40, U64le(0), p.hash);
      ByteStands(b, 0, 2);
      ZerosStand(b, 1, 7);
      ZerosStand(b, 8, 32);
      NothingStands(b, 40);
    }
  }

  lemma NothingStands(b: seq<Byte>, off: nat)
    requires At(b, off, U64le(0))
    ensures off + 8 <= |b| && forall i :: off <= i < off + 8 ==> b[i] == 0
  {
    forall i | off <= i < off + 8 ensures b[i] == 0 {
      LeDigits(0, 8, i - off);
      assert b[off..off + 8][i - off] == b[i];
    }
  }

  // What each encoder refuses, where it puts the fields, and the number of its message type.
  lemma PayloadLayout(t: Wire.Text, p: Wire.Payload)
    ensures var msg := Wire.MsgBytes(t, if p.Not? then p.msg else None);
            var r := Wire.EncodePayload(t, p);
            r.Ok? ==> PayloadStands(r.value, p, msg)
    ensures Wire.MsgType(p) == match p
              case Qry(_, _, _) => 1
              case Ans(_, _) => 2
              case Anc(_, _) => 3
              case Not(_, _, _) => 4
              case Gsp(_, _, _, _, _) => 5
              case GetByNameSeq(_, _) => 6
              case GetByHash(_) => 6
              case Put(_) => 7
  {
    hide At, LeAt, ToLe, ByteAt, Zeros, Wire.MsgBytes;
    var r := Wire.EncodePayload(t, p);
    if r.Ok? {
      match p
      case Qry(_, _, _) => QueryStands(t, p);
      case Ans(status, body) => StatusStands(r.value, status, body);
      case Anc(status, body) => StatusStands(r.value, status, body);
      case Not(code, retry, m) => NoticeStands(r.value, code, retry, Wire.MsgBytes(t, m));
      case Gsp(_, _, _, _, _) => GossipStands(t, p);
      case GetByNameSeq(_, _) => GetsStand(t, p);
      case GetByHash(_) => GetsStand(t, p);
      case Put(body) =>
        AtStart(r.value);
        BodyStands(r.value, 0, body);
    }
  }

  // What the safe parser limits: route sets in answers and uploads, anchors, and messages.
  lemma LimitsExactly(t: Wire.Text, l: Wire.Limits, p: Wire.Payload)
    ensures Wire.BodyWithin(t, l, Wire.MsgType(p), p) <==> match p
              case Ans(_, body) => |body| <= l.maxRouteSetBytes
              case Put(body) => |body| <= l.maxRouteSetBytes
              case Anc(_, body) => |body| <= l.maxAnchorBytes
              case Not(_, _, msg) => msg == None || msg == Some([]) || |t.encode(msg.value)| <= l.maxNotMsgBytes
              case _ => true
  {
  }

  // ---------- what is accepted ----------

  // What the encoders refuse: anything that does not fit the fields they check.
  lemma EncodersAcceptExactly(rs: RouteSets.RouteSet, g: Gateway.Routes, canonicalize: bool)
    ensures RouteSets.Encode(rs, canonicalize).Ok? <==>
              && |rs.nameId| == 32 && |rs.owner| == 32 && 0 <= rs.nsId <= 0xFFFF_FFFF
              && (rs.sig.Some? ==> |rs.sig.value| == 64)
              && forall r :: r in rs.records ==>
                   && 0 <= r.rrType <= 0xFFFF && 0 <= r.rrClass <= 0xFFFF && 0 <= r.ttl <= 0xFFFF_FFFF
                   && |r.rdata| <= 0xFFFF
    ensures Gateway.Encode(g, canonicalize).Ok? <==>
              && |g.parent| == 32 && |g.owner| == 32 && 0 <= g.nsId <= 0xFFFF_FFFF
              && (g.sig.Some? ==> |g.sig.value| == 64)
              && (forall s :: s in g.sets ==>
                    0 <= s.id <= 0xFFFF_FFFF && |s.targets| <= 255 && forall t :: t in s.targets ==> |t.data| <= 0xFFFF)
              && forall r :: r in g.rules ==>
                   |r.pattern| <= 255 && forall l :: l in r.pattern ==> l == Gateway.Wildcard || 1 <= |l.text| <= 63
  {
  }

  lemma WireAcceptsExactly(t: Wire.Text, p: Wire.Payload, h: Wire.Header)
    ensures Wire.EncodeHeader(h).Ok? <==>
              && h.version == 1 && 0 <= h.msgType <= 0xFF && 0 <= h.flags <= 0xFFFF && 0 <= h.reqId <= 0xFFFF_FFFF
              && 0 <= h.nsId <= 0xFFFF_FFFF && 0 <= h.payloadLen <= 0xFFFF_FFFF
    ensures Wire.EncodePayload(t, p).Ok? <==> match p
              case Qry(nameId, qtype, _) => |nameId| == 32 && 0 <= qtype <= 0xFFFF
              case Ans(status, body) => 0 <= status <= 0xFF && |body| <= 0xFFFF_FFFF
              case Anc(status, body) => 0 <= status <= 0xFF && |body| <= 0xFFFF_FFFF
              case Not(code, retry, msg) =>
                && 0 <= code <= 0xFFFF && 0 <= retry <= 0xFFFF_FFFF
                && (msg == None || msg == Some([]) || |t.encode(msg.value)| <= 0xFFFF)
              case Gsp(nameId, _, _, hash, hops) => |nameId| == 32 && |hash| == 32 && 0 <= hops <= 0xFF
              case GetByNameSeq(nameId, _) => |nameId| == 32
              case GetByHash(hash) => |hash| == 32
              case Put(body) => |body| <= 0xFFFF_FFFF
  {
    hide ToLe;
  }

  // The bytes of a number are those of what they read as.
  lemma ReadStands(b: seq<Byte>, off: nat, k: nat)
    requires off + k <= |b|
    ensures LeAt(b, off, k, FromLe(b[off..off + k]))
  {
    hide ToLe, FromLe;
    WritesBack(b[off..off + k]);
    LeStands(b, off, k, FromLe(b[off..off + k]));
  }

  lemma RecordWritten(b: seq<Byte>, off: nat)
    requires RouteSets.ReadRecord(b)(off).Next? && RouteSets.ReadRecord(b)(off).off <= |b|
    ensures var step := RouteSets.ReadRecord(b)(off);
            && RouteSets.RecordFits(step.value) && step.off == off + 10 + |step.value.rdata|
            && b[off..step.off] == RouteSets.RecordBytes(step.value)
  {
    hide FromLe, ToLe, Pow256;
    var len := FromLe(b[off + 8..off + 10]);
    var r := RouteSets.ReadRecord(b)(off).value;
    WritesBack(b[off..off + 2]);
    WritesBack(b[off + 2..off + 4]);
    WritesBack(b[off + 4..off + 8]);
    WritesBack(b[off + 8..off + 10]);
    FromLeBound(b[off..off + 2]);
    FromLeBound(b[off + 2..off + 4]);
    FromLeBound(b[off + 4..off + 8]);
    FromLeBound(b[off + 8..off + 10]);
    PowValues();
    assert |r.rdata| == len;
    assert b[off..off + 10 + len]
        == b[off..off + 2] + b[off + 2..off + 4] + b[off + 4..off + 8] + b[off + 8..off + 10]
           + b[off + 10..off + 10 + len];
  }

  lemma {:induction false} RecordsWritten(b: seq<Byte>, off: nat, n: nat)
    requires var read := ReadMany(RouteSets.ReadRecord(b), off, n); read.Next? && read.off <= |b|
    ensures var read := ReadMany(RouteSets.ReadRecord(b), off, n);
            && off <= read.off && (forall r :: r in read.value ==> RouteSets.RecordFits(r))
            && b[off..read.off] == Flatten(Map(read.value, RouteSets.RecordBytes))
    decreases n
  {
    hide RouteSets.RecordBytes, RouteSets.RecordFits;
    if n > 0 {
      var step := RouteSets.ReadRecord(b)(off);
      var rest := ReadMany(RouteSets.ReadRecord(b), step.off, n - 1);
      RecordsWritten(b, step.off, n - 1);
      RecordWritten(b, off);
      var all := [step.value] + rest.value;
      assert ReadMany(RouteSets.ReadRecord(b), off, n).value == all;
      FlattenHead(all, RouteSets.RecordBytes);
      assert all[1..] == rest.value;
      assert b[off..rest.off] == b[off..step.off] + b[step.off..rest.off];
    }
  }

  // Whatever bytes decode to a route set with a whole owner begin with its encoding, records in
  // the order they stand in; so nothing but that is ever accepted.
  lemma DecodedIsEncoded(b: seq<Byte>)
    requires RouteSets.Decode(b).Ok? && |RouteSets.Decode(b).value.owner| == 32
    ensures var e := RouteSets.Encode(RouteSets.Decode(b).value, false);
            e.Ok? && |e.value| <= |b| && b[..|e.value|] == e.value
    ensures var unsigned := RouteSets.Decode(b).value.(sig := None);
            RouteSets.Decode(b).value.sig.Some? <==> |b| >= |RouteSets.Encode(unsigned, false).value| + 64
  {
    hide FromLe, ToLe, Pow256, Flatten, Map, ReadMany;
    hide RouteSets.RecordBytes, RouteSets.ReadRecord, RouteSets.RecordFits;
    var rs := RouteSets.Decode(b).value;
    var off := ReadMany(RouteSets.ReadRecord(b), 61, FromLe(b[57..61])).off;
    RecordsWritten(b, 61, FromLe(b[57..61]));
    WritesBack(b[5..9]);
    WritesBack(b[41..49]);
    WritesBack(b[49..57]);
    WritesBack(b[57..61]);
    FromLeBound(b[5..9]);
    PowValues();
    var body := Flatten(Map(rs.records, RouteSets.RecordBytes));
    assert RouteSets.Header(rs) == b[..4] + b[4..5] + b[5..9] + b[9..41] + b[41..49] + b[49..57] + b[57..61];
    assert RouteSets.Header(rs) == b[..61];
    assert b[..61] + b[61..off] + b[off..off + 32] == b[..off + 32];
    assert RouteSets.AllBytes(rs) == b[..off + 32] + SigBytes(rs.sig);
    if rs.sig.Some? {
      assert b[..off + 32] + b[off + 32..off + 96] == b[..off + 96];
    }
    assert RouteSets.AllBytes(rs.(sig := None)) == b[..61] + b[61..off] + b[off..off + 32] + [];
  }

  // A route set verifies exactly when its bytes decode to a signed one whose signature is the
  // owner's over all but the last 64 bytes, and, where asked for, are its canonical encoding.
  lemma VerifiesExactly<Seed>(b: seq<Byte>, requireCanonical: bool, ed: RouteSets.Scheme<Seed>)
    ensures RouteSets.VerifyRouteSetV1(b, requireCanonical, ed) == Ok(true) <==>
              var d := RouteSets.Decode(b);
              && d.Ok? && d.value.sig.Some? && |b| >= 64
              && (requireCanonical ==> RouteSets.Encode(d.value, true) == Ok(b))
              && ed.verify(d.value.owner, b[..|b| - 64], d.value.sig.value)
  {
    hide RouteSets.Encode, ReadMany;
  }

  // What a decoded GWRT buffer must begin with.
  lemma GatewayHeaderRead(b: seq<Byte>, dec: Gateway.TextDecoder)
    requires Gateway.Decode(b, dec).Done?
    ensures var g := Gateway.Decode(b, dec).routes;
            && |b| >= 61 && b[..5] == [71, 87, 82, 84, 1] && LeAt(b, 5, 4, g.nsId) && 0 <= g.nsId <= 0xFFFF_FFFF
            && g.parent == b[9..41] && LeAt(b, 41, 8, g.gSeq) && LeAt(b, 49, 8, g.gExp)
            && LeAt(b, 57, 2, |g.sets|) && LeAt(b, 59, 2, |g.rules|)
  {
    hide LeAt, FromLe, Pow256, Gateway.ReadSet, Gateway.ReadRule;
    ReadStands(b, 5, 4);
    ReadStands(b, 41, 8);
    ReadStands(b, 49, 8);
    ReadStands(b, 57, 2);
    ReadStands(b, 59, 2);
    FromLeBound(b[5..9]);
    PowValues();
    assert b[..5] == b[..4] + b[4..5];
  }

  // The safe parser on any bytes: it accepts exactly a packet within the two limits whose body, for
  // the types 2, 3, 4 and 7, decodes and is within its own, and gives what decodePacket gives.
  lemma SafeParserExactly(t: Wire.Text, b: seq<Byte>, l: Wire.Limits)
    ensures var r, d := Wire.ParsePacketSafe(t, b, l), Wire.DecodePacket(b);
            && (r.Ok? ==> r == d)
            && (r.Ok? <==>
                  && d.Ok? && |b| <= l.maxPacketBytes && |d.value.payload| <= l.maxPayloadBytes
                  && (d.value.header.msgType in {2, 3, 4, 7} ==>
                        var body := Wire.DecodePayload(t, d.value.header.msgType, d.value.payload);
                        body.Ok? && Wire.BodyWithin(t, l, Wire.MsgType(body.value), body.value)))
  {
    hide Wire.DecodePayload, Wire.DecodePacket;
    var d := Wire.DecodePacket(b);
    if d.Ok? {
      Wire.PacketCanonical(b);
      DecodedType(t, d.value.header.msgType, d.value.payload);
    }
  }

  lemma DecodedType(t: Wire.Text, msgType: int, b: seq<Byte>)
    ensures var r := Wire.DecodePayload(t, msgType, b); r.Ok? ==> Wire.MsgType(r.value) == msgType
  {
    hide FromLe;
  }

  // Bytes accepted as a query, an answer, an anchor or an upload are the encoding of what they
  // decode to; the other payloads have fixed lengths, or the length they say.
  lemma PayloadAccepted(t: Wire.Text, msgType: int, b: seq<Byte>)
    requires Wire.DecodePayload(t, msgType, b).Ok?
    ensures var p := Wire.DecodePayload(t, msgType, b).value;
            && (p.Qry? || p.Ans? || p.Anc? || p.Put? ==> Wire.EncodePayload(t, p) == Ok(b))
            && (p.Gsp? ==> |b| == 88) && (p.GetByNameSeq? || p.GetByHash? ==> |b| == 80)
            && (p.Not? ==> |b| >= 8 && LeAt(b, 0, 2, p.code) && LeAt(b, 2, 4, p.retry) && LeAt(b, 6, 2, |b| - 8))
  {
    hide FromLe, ToLe, Pow256, LeAt;
    PowValues();
    match msgType
    case 1 => QueryWritten(b);
    case 2 =>
      BodyWritten(b, 1);
      assert b[..1] == [b[0]];
    case 3 =>
      BodyWritten(b, 1);
      assert b[..1] == [b[0]];
    case 4 =>
      ReadStands(b, 0, 2);
      ReadStands(b, 2, 4);
      ReadStands(b, 6, 2);
    case 7 => BodyWritten(b, 0);
    case _ =>
  }

  lemma QueryWritten(b: seq<Byte>)
    requires |b| == 42
    ensures b == b[0..32] + (U16le(FromLe(b[32..34])) + U64le(FromLe(b[34..42]))) && FromLe(b[32..34]) < U16
  {
    hide FromLe, ToLe, Pow256;
    WritesBack(b[32..34]);
    WritesBack(b[34..42]);
    FromLeBound(b[32..34]);
    PowValues();
    assert b == b[0..32] + (b[32..34] + b[34..42]);
  }

  lemma BodyWritten(b: seq<Byte>, off: nat)
    requires off <= 1 && off + 4 <= |b| && |b| == off + 4 + FromLe(b[off..off + 4])
    ensures b == b[..off] + (U32le(|b| - off - 4) + b[off + 4..]) && |b| - off - 4 < U32
  {
    hide FromLe, ToLe, Pow256;
    WritesBack(b[off..off + 4]);
    FromLeBound(b[off..off + 4]);
    PowValues();
    assert b == b[..off] + (b[off..off + 4] + b[off + 4..]);
  }

  // A buffer cut inside its only rule: in a label or behind the number of labels the call returns
  // with garbled fields, before that number it throws.
  lemma CutRules(dec: Gateway.TextDecoder)
    ensures var b := [71, 87, 82, 84, 1] + Zeros(52) + [0, 0, 1, 0] + [0, 0, 1, 1];
            && Gateway.Decode(b, dec) == Gateway.Garbled && Gateway.Decode(b[..64], dec) == Gateway.Garbled
            && Gateway.Decode(b[..63], dec) == Gateway.Failed
  {
    var b := [71, 87, 82, 84, 1] + Zeros(52) + [0, 0, 1, 0] + [0, 0, 1, 1];
    CutHeader(b, dec);
    CutHeader(b[..64], dec);
    CutHeader(b[..63], dec);
    hide Gateway.Decode, FromLe;
    assert ReadMany(Gateway.ReadLabel(b, dec), 64, 1) == NotANumber;
    assert ReadMany(Gateway.ReadLabel(b[..64], dec), 64, 1) == NotANumber;
    assert ReadMany(Gateway.ReadRule(b, dec), 61, 1) == NotANumber;
    assert ReadMany(Gateway.ReadRule(b[..64], dec), 61, 1) == NotANumber;
    assert ReadMany(Gateway.ReadRule(b[..63], dec), 61, 1) == Fail;
  }

  // No sets and one rule: decoding is reading that rule.
  lemma CutHeader(b: seq<Byte>, dec: Gateway.TextDecoder)
    requires |b| >= 61 && b[..61] == [71, 87, 82, 84, 1] + Zeros(52) + [0, 0, 1, 0]
    ensures match ReadMany(Gateway.ReadRule(b, dec), 61, 1)
            case Fail => Gateway.Decode(b, dec) == Gateway.Failed
            case NotANumber => Gateway.Decode(b, dec) == Gateway.Garbled
            case Next(_, _) => Gateway.Decode(b, dec).Done?
  {
    var front := [71, 87, 82, 84, 1] + Zeros(52) + [0, 0, 1, 0];
    assert b[..4] == b[..61][..4] == front[..4] == Gateway.GW_MAGIC;
    assert b[4..5] == b[..61][4..5] == [1];
    assert b[57..59] == b[..61][57..59] == [0, 0];
    assert b[59..61] == b[..61][59..61] == [1, 0];
    SmallCounts();
    hide FromLe, Gateway.ReadRule;
  }

  lemma SmallCounts()
    ensures FromLe([0, 0]) == 0 && FromLe([1, 0]) == 1
  {
    assert [0, 0][1..] == [0] && [1, 0][1..] == [0] && [0][1..] == [];
    assert FromLe([0]) == 0;
  }
}
