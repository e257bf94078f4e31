// core/src/gateway_routes.ts: the GWRT codec.
module Gateway {
  import opened Sorting
  import opened Bytes

  const GW_MAGIC: seq<Byte> := [71, 87, 82, 84]  // "GWRT"
  const GW_VERSION: Byte := 1
  const EXACT: Byte := 1
  const WILDCARD: Byte := 2

  datatype Target = Target(kind: int, data: seq<Byte>)
  datatype GatewaySet = GatewaySet(id: int, targets: seq<Target>)
  datatype Label = Wildcard | Exact(text: seq<CodeUnit>)
  datatype Rule = Rule(priority: int, flags: int, pattern: seq<Label>, setId: int)
  datatype Routes = Routes(nsId: int, parent: seq<Byte>, gSeq: int, gExp: int,
                           sets: seq<GatewaySet>, rules: seq<Rule>,
                           owner: seq<Byte>, sig: Option<seq<Byte>>)

  // new TextDecoder().decode: the model needs it only as a function.
  type TextDecoder = seq<Byte> -> seq<CodeUnit>

  // ---------- encoding ----------

  function LabelBytes(l: Label): seq<Byte> {
    match l
    case Wildcard => [WILDCARD, 0]
    case Exact(s) => [EXACT, |s| % 256] + Ascii(s)
  }

  function PatternBytes(p: seq<Label>): seq<Byte> {
    Flatten(Map(p, LabelBytes))
  }

  function TargetBytes(t: Target): seq<Byte> {
    [t.kind % 256] + U16le(|t.data|) + t.data
  }

  function SetBytes(s: GatewaySet): seq<Byte> {
    U32le(s.id) + [|s.targets| % 256] + Flatten(Map(s.targets, TargetBytes))
  }

  function RuleBytes(r: Rule): seq<Byte> {
    [r.priority % 256, r.flags % 256, |r.pattern| % 256] + PatternBytes(r.pattern) + U32le(r.setId)
  }

  predicate LabelFits(l: Label) {
    l.Exact? ==> 1 <= |l.text| <= 63
  }

  predicate TargetFits(t: Target) {
    |t.data| < U16
  }

  predicate SetFits(s: GatewaySet) {
    0 <= s.id < U32 && |s.targets| < 256 && forall t :: t in s.targets ==> TargetFits(t)
  }

  predicate RuleFits(r: Rule) {
    |r.pattern| < 256 && forall l :: l in r.pattern ==> LabelFits(l)
  }

  // The checks of encodeGatewayRoutesV1 and encodePatternLabel: it throws when one fails.
  predicate Encodable(g: Routes) {
    && |g.parent| == 32 && |g.owner| == 32
    && 0 <= g.nsId < U32
    && (g.sig.Some? ==> |g.sig.value| == 64)
    && (forall s :: s in g.sets ==> SetFits(s))
    && (forall r :: r in g.rules ==> RuleFits(r))
  }

  // The two comparators, as the numbers the source returns.
  function CompareSets(a: GatewaySet, b: GatewaySet): int {
    a.id - b.id
  }

  function CompareRules(a: Rule, b: Rule): int {
    if |a.pattern| != |b.pattern| then |a.pattern| - |b.pattern|
    else
      var d := CmpBytes(PatternBytes(a.pattern), PatternBytes(b.pattern));
      if d != 0 then d
      else if a.setId != b.setId then a.setId - b.setId
      else a.priority - b.priority
  }

  function SetOrder(a: GatewaySet, b: GatewaySet): bool { CompareSets(a, b) <= 0 }
  function RuleOrder(a: Rule, b: Rule): bool { CompareRules(a, b) <= 0 }

  function Arrange(g: Routes, canonicalize: bool): Routes {
    if canonicalize then g.(sets := Sort(g.sets, SetOrder), rules := Sort(g.rules, RuleOrder)) else g
  }

  function Header(g: Routes): seq<Byte> {
    GW_MAGIC + [GW_VERSION] + U32le(g.nsId) + g.parent + U64le(g.gSeq) + U64le(g.gExp)
    + U16le(|g.sets|) + U16le(|g.rules|)
  }

  function AllBytes(g: Routes): seq<Byte> {
    Header(g) + Flatten(Map(g.sets, SetBytes)) + Flatten(Map(g.rules, RuleBytes)) + g.owner + SigBytes(g.sig)
  }

  function Encode(g: Routes, canonicalize: bool): Outcome<seq<Byte>> {
    if Encodable(g) then Ok(AllBytes(Arrange(g, canonicalize))) else Throws
  }

  // ---------- decoding ----------

  function ReadLabel(b: seq<Byte>, dec: TextDecoder): nat -> Step<Label> {
    (off: nat) =>
      if off < |b| && b[off] == WILDCARD then Next(Wildcard, off + 2)
      else if off + 1 >= |b| then NotANumber  // off + undefined
      else Next(Exact(dec(Slice(b, off + 2, off + 2 + b[off + 1]))), off + 2 + b[off + 1])
  }

  function ReadTarget(b: seq<Byte>): nat -> Step<Target> {
    (off: nat) =>
      match Read(b, off + 1, 2)
      case Throws => Fail
      case Ok(n) => Next(Target(b[off], Slice(b, off + 3, off + 3 + n)), off + 3 + n)
  }

  function ReadSet(b: seq<Byte>): nat -> Step<GatewaySet> {
    (off: nat) =>
      match Read(b, off, 4)
      case Throws => Fail
      case Ok(id) =>
        var count := if off + 4 < |b| then b[off + 4] else 0;  // undefined: no iteration
        match ReadMany(ReadTarget(b), off + 5, count)
        case Next(ts, o) => Next(GatewaySet(id, ts), o)
        case Fail => Fail
        case NotANumber => NotANumber
  }

  function ReadRule(b: seq<Byte>, dec: TextDecoder): nat -> Step<Rule> {
    (off: nat) =>
      if off + 2 >= |b| then Fail  // no labels, then the set id is read beyond the end
      else
        match ReadMany(ReadLabel(b, dec), off + 3, b[off + 2])
        case NotANumber => NotANumber
        case Fail => Fail
        case Next(p, o) =>
          match Read(b, o, 4)
          case Throws => Fail
          case Ok(id) => Next(Rule(b[off], b[off + 1], p, id), o + 4)
  }

  // Garbled: the call returns, but from a NaN offset on the fields are not what was written: single
  // bytes are undefined, and a 32-bit number is read from the front of the buffer.
  datatype Decoded = Done(routes: Routes) | Failed | Garbled

  function Decode(b: seq<Byte>, dec: TextDecoder): Decoded {
    if Slice(b, 0, 4) != GW_MAGIC || Slice(b, 4, 5) != [GW_VERSION] || |b| < 61 then Failed
    else
      var nsId := FromLe(b[5..9]);
      var gSeq, gExp := FromLe(b[41..49]), FromLe(b[49..57]);
      match ReadMany(ReadSet(b), 61, FromLe(b[57..59]))
      case Fail => Failed
      case NotANumber => Garbled
      case Next(sets, o) =>
        match ReadMany(ReadRule(b, dec), o, FromLe(b[59..61]))
        case Fail => Failed
        case NotANumber => Garbled
        case Next(rules, off) =>
          var sig := if off + 96 <= |b| then Some(Slice(b, off + 32, off + 96)) else None;
          Done(Routes(nsId, Slice(b, 9, 41), gSeq, gExp, sets, rules, Slice(b, off, off + 32), sig))
  }

  // ---------- what decoding makes of each encoded part ----------

  function Relabel(dec: TextDecoder): Label -> Label {
    (l: Label) => if l.Exact? then Exact(dec(Ascii(l.text))) else Wildcard
  }

  function ByteKind(t: Target): Target { Target(t.kind % 256, t.data) }

  function ByteKinds(s: GatewaySet): GatewaySet { GatewaySet(s.id, Map(s.targets, ByteKind)) }

  function ByteFields(dec: TextDecoder): Rule -> Rule {
    (r: Rule) => Rule(r.priority % 256, r.flags % 256, Map(r.pattern, Relabel(dec)), r.setId % U32)
  }

  function Truncated(g: Routes, dec: TextDecoder): Routes {
    g.(gSeq := g.gSeq % U64, gExp := g.gExp % U64,
       sets := Map(g.sets, ByteKinds), rules := Map(g.rules, ByteFields(dec)))
  }

  lemma ReadLabelAt(b: seq<Byte>, o: nat, l: Label, dec: TextDecoder)
    requires LabelFits(l) && At(b, o, LabelBytes(l))
    ensures ReadLabel(b, dec)(o) == Next(Relabel(dec)(l), o + |LabelBytes(l)|)
  {
    hide At;
    hide Slice;
    AtByte(b, o, LabelBytes(l), 0);
    AtByte(b, o, LabelBytes(l), 1);
    if l.Exact? {
      AtSplit(b, o, [EXACT, |l.text| % 256], Ascii(l.text));
      AtSlice(b, o + 2, Ascii(l.text));
    }
  }

  lemma ReadLabelsAt(b: seq<Byte>, o: nat, p: seq<Label>, dec: TextDecoder)
    requires forall l :: l in p ==> LabelFits(l)
    requires At(b, o, PatternBytes(p))
    ensures ReadMany(ReadLabel(b, dec), o, |p|) == Next(Map(p, Relabel(dec)), o + |PatternBytes(p)|)
  {
    forall l, q: nat | l in p && At(b, q, LabelBytes(l))
      ensures ReadLabel(b, dec)(q) == Next(Relabel(dec)(l), q + |LabelBytes(l)|)
    {
      ReadLabelAt(b, q, l, dec);
    }
    ReadManyUndoes(ReadLabel(b, dec), b, o, p, LabelBytes, Relabel(dec));
  }

  lemma ReadTargetAt(b: seq<Byte>, o: nat, t: Target)
    requires TargetFits(t) && At(b, o, TargetBytes(t))
    ensures ReadTarget(b)(o) == Next(ByteKind(t), o + |TargetBytes(t)|)
  {
    hide At;
    hide Slice;
    hide Read;
    hide ToLe;
    hide FromLe;
    hide Pow256;
    var k: seq<Byte> := [t.kind % 256];
    AtSplit(b, o, k + U16le(|t.data|), t.data);
    AtSplit(b, o, k, U16le(|t.data|));
    AtByte(b, o, k, 0);
    AtSlice(b, o + 3, t.data);
    ReadAt(b, o + 1, |t.data|, 2);
    PowValues();
  }

  lemma ReadSetAt(b: seq<Byte>, o: nat, s: GatewaySet)
    requires SetFits(s) && At(b, o, SetBytes(s))
    ensures ReadSet(b)(o) == Next(ByteKinds(s), o + |SetBytes(s)|)
  {
    hide At;
    hide Read;
    hide Flatten;
    hide Map;
    hide ReadMany;
    hide ToLe;
    hide FromLe;
    hide Pow256;
    hide TargetBytes;
    hide ReadTarget;
    var count: seq<Byte> := [|s.targets| % 256];
    var body := Flatten(Map(s.targets, TargetBytes));
    AtSplit(b, o, U32le(s.id) + count, body);
    AtSplit(b, o, U32le(s.id), count);
    AtByte(b, o + 4, count, 0);
    ReadAt(b, o, s.id, 4);
    PowValues();
    forall t, q: nat | t in s.targets && At(b, q, TargetBytes(t))
      ensures ReadTarget(b)(q) == Next(ByteKind(t), q + |TargetBytes(t)|)
    {
      ReadTargetAt(b, q, t);
    }
    ReadManyUndoes(ReadTarget(b), b, o + 5, s.targets, TargetBytes, ByteKind);
  }

  lemma ReadRuleAt(b: seq<Byte>, o: nat, r: Rule, dec: TextDecoder)
    requires RuleFits(r) && At(b, o, RuleBytes(r))
    ensures ReadRule(b, dec)(o) == Next(ByteFields(dec)(r), o + |RuleBytes(r)|)
  {
    hide At;
    hide Read;
    hide PatternBytes;
    hide Map;
    hide ReadMany;
    hide ReadLabel;
    hide ToLe;
    hide FromLe;
    hide Pow256;
    var head: seq<Byte> := [r.priority % 256, r.flags % 256, |r.pattern| % 256];
    var patt := PatternBytes(r.pattern);
    AtSplit(b, o, head + patt, U32le(r.setId));
    AtSplit(b, o, head, patt);
    AtByte(b, o, head, 0);
    AtByte(b, o, head, 1);
    AtByte(b, o, head, 2);
    ReadLabelsAt(b, o + 3, r.pattern, dec);
    ReadAt(b, o + 3 + |patt|, r.setId, 4);
    PowValues();
  }

  lemma ReadListsAt(b: seq<Byte>, g: Routes, dec: TextDecoder)
    requires Encodable(g)
    requires At(b, 61, Flatten(Map(g.sets, SetBytes)))
    requires At(b, 61 + |Flatten(Map(g.sets, SetBytes))|, Flatten(Map(g.rules, RuleBytes)))
    ensures var setPart, rulePart := Flatten(Map(g.sets, SetBytes)), Flatten(Map(g.rules, RuleBytes));
            && ReadMany(ReadSet(b), 61, |g.sets|) == Next(Map(g.sets, ByteKinds), 61 + |setPart|)
            && ReadMany(ReadRule(b, dec), 61 + |setPart|, |g.rules|)
               == Next(Map(g.rules, ByteFields(dec)), 61 + |setPart| + |rulePart|)
  {
    hide At;
    hide Flatten;
    hide Map;
    hide ReadMany;
    hide SetBytes;
    hide RuleBytes;
    forall s, q: nat | s in g.sets && At(b, q, SetBytes(s))
      ensures ReadSet(b)(q) == Next(ByteKinds(s), q + |SetBytes(s)|)
    {
      ReadSetAt(b, q, s);
    }
    ReadManyUndoes(ReadSet(b), b, 61, g.sets, SetBytes, ByteKinds);
    var o := 61 + |Flatten(Map(g.sets, SetBytes))|;
    forall r, q: nat | r in g.rules && At(b, q, RuleBytes(r))
      ensures ReadRule(b, dec)(q) == Next(ByteFields(dec)(r), q + |RuleBytes(r)|)
    {
      ReadRuleAt(b, q, r, dec);
    }
    ReadManyUndoes(ReadRule(b, dec), b, o, g.rules, RuleBytes, ByteFields(dec));
  }

  lemma HeaderAt(b: seq<Byte>, g: Routes)
    requires |g.parent| == 32 && 0 <= g.nsId < U32 && |g.sets| < U16 && |g.rules| < U16
    requires At(b, 0, Header(g))
    ensures |b| >= 61 && Slice(b, 0, 4) == GW_MAGIC && Slice(b, 4, 5) == [GW_VERSION]
    ensures FromLe(b[5..9]) == g.nsId && Slice(b, 9, 41) == g.parent
    ensures FromLe(b[41..49]) == g.gSeq % U64 && FromLe(b[49..57]) == g.gExp % U64
    ensures FromLe(b[57..59]) == |g.sets| && FromLe(b[59..61]) == |g.rules|
  {
    hide At;
    hide FromLe;
    hide ToLe;
    hide Pow256;
    hide Slice;
    hide Read;
    var h1 := GW_MAGIC + [GW_VERSION];
    var h2 := h1 + U32le(g.nsId);
    var h3 := h2 + g.parent;
    var h4 := h3 + U64le(g.gSeq);
    var h5 := h4 + U64le(g.gExp);
    var h6 := h5 + U16le(|g.sets|);
    AtSplit(b, 0, h6, U16le(|g.rules|));
    AtSplit(b, 0, h5, U16le(|g.sets|));
    AtSplit(b, 0, h4, U64le(g.gExp));
    AtSplit(b, 0, h3, U64le(g.gSeq));
    AtSplit(b, 0, h2, g.parent);
    AtSplit(b, 0, h1, U32le(g.nsId));
    AtSplit(b, 0, GW_MAGIC, [GW_VERSION]);
    AtSlice(b, 0, GW_MAGIC);
    AtSlice(b, 4, [GW_VERSION]);
    AtSlice(b, 9, g.parent);
    ReadAt(b, 5, g.nsId, 4);
    ReadAt(b, 41, g.gSeq, 8);
    ReadAt(b, 49, g.gExp, 8);
    ReadAt(b, 57, |g.sets|, 2);
    ReadAt(b, 59, |g.rules|, 2);
    PowValues();
  }

  // Decoding an encoding gives back the encoded value with the truncated fields truncated.
  lemma DecodeEncoded(g: Routes, canonicalize: bool, dec: TextDecoder)
    requires Encodable(g) && |g.sets| < U16 && |g.rules| < U16
    ensures Decode(Encode(g, canonicalize).value, dec) == Done(Truncated(Arrange(g, canonicalize), dec))
  {
    ArrangeFits(g, canonicalize);
    DecodeBytes(Arrange(g, canonicalize), dec);
  }

  lemma PartsAt(a: Routes)
    requires |a.parent| == 32
    ensures var b, sets, rules := AllBytes(a), Flatten(Map(a.sets, SetBytes)), Flatten(Map(a.rules, RuleBytes));
            && At(b, 0, Header(a)) && At(b, 61, sets) && At(b, 61 + |sets|, rules)
            && At(b, 61 + |sets| + |rules|, a.owner)
            && At(b, 61 + |sets| + |rules| + |a.owner|, SigBytes(a.sig))
            && |b| == 61 + |sets| + |rules| + |a.owner| + |SigBytes(a.sig)|
  {
    var b := AllBytes(a);
    var sets, rules := Flatten(Map(a.sets, SetBytes)), Flatten(Map(a.rules, RuleBytes));
    hide At;
    hide Flatten;
    hide Map;
    hide ToLe;
    AtStart(b);
    AtSplit(b, 0, Header(a) + sets + rules + a.owner, SigBytes(a.sig));
    AtSplit(b, 0, Header(a) + sets + rules, a.owner);
    AtSplit(b, 0, Header(a) + sets, rules);
    AtSplit(b, 0, Header(a), sets);
  }

  lemma DecodeBytes(a: Routes, dec: TextDecoder)
    requires Encodable(a) && |a.sets| < U16 && |a.rules| < U16
    ensures Decode(AllBytes(a), dec) == Done(Truncated(a, dec))
  {
    hide At;
    hide Flatten;
    hide Map;
    hide ReadMany;
    hide Slice;
    hide ToLe;
    hide FromLe;
    hide SetBytes;
    hide RuleBytes;
    hide ReadSet;
    hide ReadRule;
    hide AllBytes;
    hide Header;
    hide Sort;
    var b := AllBytes(a);
    var o := 61 + |Flatten(Map(a.sets, SetBytes))| + |Flatten(Map(a.rules, RuleBytes))|;
    PartsAt(a);
    HeaderAt(b, a);
    ReadListsAt(b, a, dec);
    AtSlice(b, o, a.owner);
    AtSlice(b, o + 32, SigBytes(a.sig));
  }

  lemma ArrangeFits(g: Routes, canonicalize: bool)
    ensures var a := Arrange(g, canonicalize);
            && multiset(a.sets) == multiset(g.sets) && |a.sets| == |g.sets|
            && multiset(a.rules) == multiset(g.rules) && |a.rules| == |g.rules|
            && (Encodable(a) <==> Encodable(g))
  {
    var a := Arrange(g, canonicalize);
    MembersOf(a.sets, g.sets);
    MembersOf(a.rules, g.rules);
  }

  // ---------- the round trip, exactly ----------

  predicate InByte(n: int) { 0 <= n < 256 }

  predicate Stable(l: Label, dec: TextDecoder) {
    l.Exact? ==> dec(Ascii(l.text)) == l.text
  }

  predicate RuleClean(r: Rule, dec: TextDecoder) {
    InByte(r.priority) && InByte(r.flags) && 0 <= r.setId < U32 && forall l :: l in r.pattern ==> Stable(l, dec)
  }

  predicate SetClean(s: GatewaySet) {
    forall t :: t in s.targets ==> InByte(t.kind)
  }

  // What the encoder truncates silently instead of checking.
  predicate WellFormed(g: Routes, dec: TextDecoder) {
    && |g.sets| < U16 && |g.rules| < U16
    && 0 <= g.gSeq < U64 && 0 <= g.gExp < U64
    && (forall s :: s in g.sets ==> SetClean(s))
    && (forall r :: r in g.rules ==> RuleClean(r, dec))
  }

  lemma MapFixed<T>(xs: seq<T>, f: T -> T)
    ensures Map(xs, f) == xs <==> forall x :: x in xs ==> f(x) == x
  {
    if Map(xs, f) == xs {
      forall x | x in xs ensures f(x) == x {
        var i :| 0 <= i < |xs| && xs[i] == x;
        assert Map(xs, f)[i] == x;
      }
    }
  }

  lemma SetFixed(s: GatewaySet)
    ensures ByteKinds(s) == s <==> SetClean(s)
  {
    hide Map;
    MapFixed(s.targets, ByteKind);
    forall t ensures ByteKind(t) == t <==> InByte(t.kind) {
      KindFixed(t);
    }
  }

  lemma KindFixed(t: Target)
    ensures ByteKind(t) == t <==> InByte(t.kind)
  {
  }

  lemma RuleFixed(r: Rule, dec: TextDecoder)
    ensures ByteFields(dec)(r) == r <==> RuleClean(r, dec)
  {
    MapFixed(r.pattern, Relabel(dec));
    assert forall l :: Relabel(dec)(l) == l <==> Stable(l, dec);
  }

  lemma TruncatedFixed(g: Routes, dec: TextDecoder)
    requires |g.sets| < U16 && |g.rules| < U16
    ensures Truncated(g, dec) == g <==> WellFormed(g, dec)
  {
    MapFixed(g.sets, ByteKinds);
    MapFixed(g.rules, ByteFields(dec));
    forall s | s in g.sets ensures ByteKinds(s) == s <==> SetClean(s) {
      SetFixed(s);
    }
    forall r | r in g.rules ensures ByteFields(dec)(r) == r <==> RuleClean(r, dec) {
      RuleFixed(r, dec);
    }
  }

  lemma DecodedCounts(b: seq<Byte>, dec: TextDecoder)
    ensures var d := Decode(b, dec); d.Done? ==> |d.routes.sets| < U16 && |d.routes.rules| < U16
  {
    if Decode(b, dec).Done? {
      FromLeBound(b[57..59]);
      FromLeBound(b[59..61]);
      PowValues();
    }
  }

  // decode(encode(g)) is g, canonically arranged when asked, exactly when nothing is truncated
  // and every label survives ascii() followed by the text decoder.
  lemma RoundTripExactly(g: Routes, canonicalize: bool, dec: TextDecoder)
    requires Encodable(g)
    ensures Decode(Encode(g, canonicalize).value, dec) == Done(Arrange(g, canonicalize)) <==> WellFormed(g, dec)
  {
    var a := Arrange(g, canonicalize);
    ArrangeFits(g, canonicalize);
    MembersOf(a.sets, g.sets);
    MembersOf(a.rules, g.rules);
    assert WellFormed(a, dec) <==> WellFormed(g, dec);
    if |g.sets| < U16 && |g.rules| < U16 {
      DecodeEncoded(g, canonicalize, dec);
      TruncatedFixed(a, dec);
    } else {
      DecodedCounts(Encode(g, canonicalize).value, dec);
    }
  }

  ghost predicate DecodesAscii(dec: TextDecoder) {
    forall b: seq<Byte> :: (forall x :: x in b ==> x < 128) ==> dec(b) == b
  }

  lemma AsciiIsStable(l: Label, dec: TextDecoder)
    requires DecodesAscii(dec) && (l.Exact? ==> forall c :: c in l.text ==> c < 128)
    ensures Stable(l, dec)
  {
    if l.Exact? {
      forall i | 0 <= i < |l.text| ensures Ascii(l.text)[i] == l.text[i] < 128 {
        assert l.text[i] in l.text;
      }
      assert Ascii(l.text) == l.text;
    }
  }

  // ---------- the comparators ----------

  lemma ComparatorSigns(a: Rule, b: Rule)
    ensures CompareRules(a, b) == -CompareRules(b, a)
    ensures CompareRules(a, b) == 0 <==> SameKey(a, b)
  {
    CmpBytesSigns(PatternBytes(a.pattern), PatternBytes(b.pattern));
  }

  lemma CompareRulesTransitive(a: Rule, b: Rule, c: Rule)
    requires RuleOrder(a, b) && RuleOrder(b, c)
    ensures RuleOrder(a, c)
  {
    hide PatternBytes;
    hide CmpBytes;
    var x, y, z := PatternBytes(a.pattern), PatternBytes(b.pattern), PatternBytes(c.pattern);
    CmpBytesSigns(x, y);
    CmpBytesSigns(y, z);
    CmpBytesSigns(x, z);
    if |a.pattern| == |b.pattern| == |c.pattern| {
      CmpBytesTransitive(x, y, z);
    }
  }

  lemma OrdersArePreorders()
    ensures TotalPreorder(SetOrder) && TotalPreorder(RuleOrder)
  {
    forall a, b ensures RuleOrder(a, b) || RuleOrder(b, a) {
      ComparatorSigns(a, b);
    }
    forall a, b, c | RuleOrder(a, b) && RuleOrder(b, c) ensures RuleOrder(a, c) {
      CompareRulesTransitive(a, b, c);
    }
  }

  // Encoding what was decoded from a canonical encoding gives the same bytes.
  lemma ReencodeStable(g: Routes, dec: TextDecoder)
    requires Encodable(g) && WellFormed(g, dec)
    ensures var b := Encode(g, true).value;
            Decode(b, dec).Done? && Encode(Decode(b, dec).routes, true) == Ok(b)
  {
    RoundTripExactly(g, true, dec);
    ArrangeFits(g, true);
    OrdersArePreorders();
    SortIdempotent(g.sets, SetOrder);
    SortIdempotent(g.rules, RuleOrder);
  }

  // ---------- unique decoding ----------

  lemma LabelDelimited(l: Label, m: Label, s: seq<Byte>, t: seq<Byte>)
    requires LabelFits(l) && LabelFits(m) && LabelBytes(l) + s == LabelBytes(m) + t
    ensures LabelBytes(l) == LabelBytes(m) && s == t
  {
    var b := LabelBytes(l) + s;
    assert b[0] == LabelBytes(l)[0] == LabelBytes(m)[0];
    assert b[1] == LabelBytes(l)[1] == LabelBytes(m)[1];
    SameHead(LabelBytes(l), s, LabelBytes(m), t);
  }

  // What ascii() leaves of a label: the low eight bits of each code unit.
  function Folded(l: Label): Label {
    match l
    case Wildcard => Wildcard
    case Exact(s) => Exact(Ascii(s))
  }

  lemma LabelUnique(l: Label, m: Label)
    requires LabelFits(l) && LabelFits(m)
    ensures LabelBytes(l) == LabelBytes(m) <==> Folded(l) == Folded(m)
  {
    if LabelBytes(l) == LabelBytes(m) {
      assert LabelBytes(l)[0] == LabelBytes(m)[0];
      if l.Exact? {
        assert m.Exact?;
        assert Ascii(l.text) == LabelBytes(l)[2..] == Ascii(m.text);
      }
    }
  }

  // Concatenated labels say where each label ends: two patterns share their bytes exactly when
  // ascii() leaves the same of each label.
  lemma {:induction false} PatternUnique(p: seq<Label>, q: seq<Label>)
    requires forall l :: l in p + q ==> LabelFits(l)
    ensures PatternBytes(p) == PatternBytes(q) <==> Map(p, Folded) == Map(q, Folded)
  {
    if p != [] && q != [] {
      var p', q' := p[1..], q[1..];
      assert p[0] in p + q && q[0] in p + q && forall l :: l in p' + q' ==> l in p + q;
      PatternUnique(p', q');
      LabelUnique(p[0], q[0]);
      MapHead(p, Folded);
      MapHead(q, Folded);
      HeadsAndTails(p, q);
    } else if p != [] {
      MapHead(p, LabelBytes);
    } else if q != [] {
      MapHead(q, LabelBytes);
    }
  }

  lemma HeadsAndTails(p: seq<Label>, q: seq<Label>)
    requires p != [] && q != [] && LabelFits(p[0]) && LabelFits(q[0])
    ensures PatternBytes(p) == PatternBytes(q) <==>
              LabelBytes(p[0]) == LabelBytes(q[0]) && PatternBytes(p[1..]) == PatternBytes(q[1..])
    ensures Map(p, Folded) == Map(q, Folded) <==>
              Folded(p[0]) == Folded(q[0]) && Map(p[1..], Folded) == Map(q[1..], Folded)
  {
    hide Map, LabelBytes, Folded;
    FlattenHead(p, LabelBytes);
    FlattenHead(q, LabelBytes);
    if PatternBytes(p) == PatternBytes(q) {
      LabelDelimited(p[0], q[0], PatternBytes(p[1..]), PatternBytes(q[1..]));
    }
    MapHead(p, Folded);
    MapHead(q, Folded);
    var f, g := Map(p, Folded), Map(q, Folded);
    assert f[0] == Folded(p[0]) && f[1..] == Map(p[1..], Folded);
    assert g[0] == Folded(q[0]) && g[1..] == Map(q[1..], Folded);
  }

  // No two patterns of labels below 256 share their bytes.
  lemma LatinPatternUnique(p: seq<Label>, q: seq<Label>)
    requires forall l :: l in p + q ==> LabelFits(l) && Folded(l) == l
    requires PatternBytes(p) == PatternBytes(q)
    ensures p == q
  {
    PatternUnique(p, q);
    forall i | 0 <= i < |p| ensures p[i] == q[i] {
      assert |Map(p, Folded)| == |Map(q, Folded)| && Map(p, Folded)[i] == Map(q, Folded)[i];
      assert p[i] in p + q && q[i] in p + q;
    }
    assert |Map(p, Folded)| == |Map(q, Folded)|;
  }

  lemma SetsDelimited(sets: seq<GatewaySet>)
    requires forall s :: s in sets ==> SetFits(s)
    ensures SelfDelimiting(sets, SetBytes)
  {
    forall x, y, s, t | x in sets && y in sets && SetBytes(x) + s == SetBytes(y) + t
      ensures |SetBytes(x)| == |SetBytes(y)|
    {
      var b := SetBytes(x) + s;
      AtStart(b);
      AtSplit(b, 0, SetBytes(x), s);
      AtSplit(b, 0, SetBytes(y), t);
      ReadSetAt(b, 0, x);
      ReadSetAt(b, 0, y);
    }
  }

  lemma RulesDelimited(rules: seq<Rule>)
    requires forall r :: r in rules ==> RuleFits(r)
    ensures SelfDelimiting(rules, RuleBytes)
  {
    forall x, y, s, t | x in rules && y in rules && RuleBytes(x) + s == RuleBytes(y) + t
      ensures |RuleBytes(x)| == |RuleBytes(y)|
    {
      var b := RuleBytes(x) + s;
      var dec: TextDecoder := u => u;
      AtStart(b);
      AtSplit(b, 0, RuleBytes(x), s);
      AtSplit(b, 0, RuleBytes(y), t);
      ReadRuleAt(b, 0, x, dec);
      ReadRuleAt(b, 0, y, dec);
    }
  }

  // ---------- canonical bytes and the order of the input ----------

  ghost predicate Reordering(g: Routes, h: Routes) {
    h == g.(sets := h.sets, rules := h.rules)
    && multiset(h.sets) == multiset(g.sets) && multiset(h.rules) == multiset(g.rules)
  }

  ghost predicate OrderIndependent(g: Routes) {
    forall h :: Reordering(g, h) ==> Encode(h, true) == Encode(g, true)
  }

  predicate SameKey(r: Rule, q: Rule) {
    |r.pattern| == |q.pattern| && PatternBytes(r.pattern) == PatternBytes(q.pattern)
    && r.setId == q.setId && r.priority == q.priority
  }

  // No two sets share an id without being written alike; no two rules differ in flags alone.
  predicate NoHiddenTies(g: Routes) {
    && (forall s, t :: s in g.sets && t in g.sets && s.id == t.id ==> SetBytes(s) == SetBytes(t))
    && (forall r, q :: r in g.rules && q in g.rules && SameKey(r, q) ==> r.flags % 256 == q.flags % 256)
  }

  lemma RuleTies(r: Rule, q: Rule)
    ensures Tied(r, q, RuleOrder) <==> SameKey(r, q)
    ensures SameKey(r, q) ==> (RuleBytes(r) == RuleBytes(q) <==> r.flags % 256 == q.flags % 256)
  {
    ComparatorSigns(r, q);
    assert RuleBytes(r)[1] == r.flags % 256 && RuleBytes(q)[1] == q.flags % 256;
  }

  lemma HiddenTiesAreTies(g: Routes)
    ensures NoHiddenTies(g) <==> TiesAgree(g.sets, SetBytes, SetOrder) && TiesAgree(g.rules, RuleBytes, RuleOrder)
  {
    hide SetBytes;
    hide RuleBytes;
    forall r, q ensures Tied(r, q, RuleOrder) <==> SameKey(r, q)
      ensures SameKey(r, q) ==> (RuleBytes(r) == RuleBytes(q) <==> r.flags % 256 == q.flags % 256)
    {
      RuleTies(r, q);
    }
    assert forall s, t :: Tied(s, t, SetOrder) <==> s.id == t.id;
  }

  lemma ReorderedParts(g: Routes, h: Routes)
    requires Encodable(g) && Reordering(g, h)
    ensures Encodable(h)
    ensures var x, y := Arrange(g, true), Arrange(h, true);
            && Encode(g, true) == Ok(AllBytes(x)) && Encode(h, true) == Ok(AllBytes(y))
            && Header(x) == Header(y) && |x.sets| == |y.sets| && |x.rules| == |y.rules|
  {
    MembersOf(g.sets, h.sets);
    MembersOf(g.rules, h.rules);
  }

  lemma SetsShow(g: Routes, h: Routes)
    requires Encodable(g) && Reordering(g, h) && h.rules == g.rules
    requires Encode(g, true) == Encode(h, true)
    ensures Map(Sort(h.sets, SetOrder), SetBytes) == Map(Sort(g.sets, SetOrder), SetBytes)
  {
    ReorderedParts(g, h);
    var x, y := Arrange(g, true), Arrange(h, true);
    var s, t := Flatten(Map(x.sets, SetBytes)), Flatten(Map(y.sets, SetBytes));
    var rest := Flatten(Map(x.rules, RuleBytes)) + g.owner + SigBytes(g.sig);
    CutMiddle(Header(x), s, t, Flatten(Map(x.rules, RuleBytes)), g.owner, SigBytes(g.sig));
    MembersOf(x.sets, g.sets);
    MembersOf(y.sets, h.sets);
    MembersOf(h.sets, g.sets);
    SetsDelimited(g.sets);
    FlattenInjective(g.sets, y.sets, x.sets, SetBytes);
  }

  lemma RulesShow(g: Routes, h: Routes)
    requires Encodable(g) && Reordering(g, h) && h.sets == g.sets
    requires Encode(g, true) == Encode(h, true)
    ensures Map(Sort(h.rules, RuleOrder), RuleBytes) == Map(Sort(g.rules, RuleOrder), RuleBytes)
  {
    ReorderedParts(g, h);
    var x, y := Arrange(g, true), Arrange(h, true);
    var s, t := Flatten(Map(x.rules, RuleBytes)), Flatten(Map(y.rules, RuleBytes));
    SameTail(Header(x) + Flatten(Map(x.sets, SetBytes)) + s + g.owner,
             Header(x) + Flatten(Map(x.sets, SetBytes)) + t + g.owner, SigBytes(g.sig));
    SameTail(Header(x) + Flatten(Map(x.sets, SetBytes)) + s, Header(x) + Flatten(Map(x.sets, SetBytes)) + t, g.owner);
    SameHead(Header(x) + Flatten(Map(x.sets, SetBytes)), s, Header(x) + Flatten(Map(x.sets, SetBytes)), t);
    MembersOf(x.rules, g.rules);
    MembersOf(y.rules, h.rules);
    MembersOf(h.rules, g.rules);
    RulesDelimited(g.rules);
    FlattenInjective(g.rules, y.rules, x.rules, RuleBytes);
  }

  lemma NoTiesIndependent(g: Routes)
    requires Encodable(g)
    requires OrderFree(g.sets, SetBytes, SetOrder) && OrderFree(g.rules, RuleBytes, RuleOrder)
    ensures OrderIndependent(g)
  {
    hide SetBytes;
    hide RuleBytes;
    hide Map;
    hide Flatten;
    hide Encodable;
    forall h | Reordering(g, h) ensures Encode(h, true) == Encode(g, true) {
      ReorderedParts(g, h);
      assert Map(Sort(h.sets, SetOrder), SetBytes) == Map(Sort(g.sets, SetOrder), SetBytes);
      assert Map(Sort(h.rules, RuleOrder), RuleBytes) == Map(Sort(g.rules, RuleOrder), RuleBytes);
    }
  }

  lemma IndependentOrderFree(g: Routes)
    requires Encodable(g) && OrderIndependent(g)
    ensures OrderFree(g.sets, SetBytes, SetOrder) && OrderFree(g.rules, RuleBytes, RuleOrder)
  {
    hide Encode;
    hide Map;
    hide Encodable;
    forall t | multiset(t) == multiset(g.sets)
      ensures Map(Sort(t, SetOrder), SetBytes) == Map(Sort(g.sets, SetOrder), SetBytes)
    {
      assert Reordering(g, g.(sets := t));
      SetsShow(g, g.(sets := t));
    }
    forall t | multiset(t) == multiset(g.rules)
      ensures Map(Sort(t, RuleOrder), RuleBytes) == Map(Sort(g.rules, RuleOrder), RuleBytes)
    {
      assert Reordering(g, g.(rules := t));
      RulesShow(g, g.(rules := t));
    }
  }

  // The canonical bytes are the same for every order of sets and rules exactly when there is
  // no hidden tie.
  lemma OrderIndependentExactly(g: Routes)
    requires Encodable(g)
    ensures OrderIndependent(g) <==> NoHiddenTies(g)
  {
    hide OrderIndependent;
    hide NoHiddenTies;
    hide OrderFree;
    hide TiesAgree;
    hide Encodable;
    hide TotalPreorder;
    OrdersArePreorders();
    HiddenTiesAreTies(g);
    OrderFreeExactly(g.sets, SetBytes, SetOrder);
    OrderFreeExactly(g.rules, RuleBytes, RuleOrder);
    if NoHiddenTies(g) {
      NoTiesIndependent(g);
    }
    if OrderIndependent(g) {
      IndependentOrderFree(g);
    }
  }
}
