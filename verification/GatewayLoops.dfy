// The encoding and decoding loops of core/src/gateway_routes.ts, each computing the function
// module Gateway specifies it by.
module GatewayLoops {
  import opened Sorting
  import opened Bytes
  import opened Gateway

  lemma NoParts(targets: seq<Target>)
    ensures Flatten([]) == Flatten(Map(targets[..0], TargetBytes))
  {
  }

  method TargetParts(targets: seq<Target>) returns (r: Outcome<seq<seq<Byte>>>)
    ensures r.Ok? <==> forall t :: t in targets ==> TargetFits(t)
    ensures r.Ok? ==> Flatten(r.value) == Flatten(Map(targets, TargetBytes))
  {
    hide Map, Flatten, ToLe;
    var parts: seq<seq<Byte>> := [];
    NoParts(targets);
    for i := 0 to |targets|
      invariant forall t :: t in targets[..i] ==> TargetFits(t)
      invariant Flatten(parts) == Flatten(Map(targets[..i], TargetBytes))
    {
      var t := targets[i];
      if |t.data| > 0xffff {
        assert t in targets && !TargetFits(t);
        return Throws;
      }
      var new1: seq<seq<Byte>> := [[t.kind % 256], U16le(|t.data|), t.data];
      FlattenConcat(parts, new1);
      FlattenThree([t.kind % 256], U16le(|t.data|), t.data);
      MapPush(targets, i, TargetBytes);
      parts := parts + new1;
    }
    assert targets[..|targets|] == targets;
    return Ok(parts);
  }

  lemma FlattenThree(a: seq<Byte>, b: seq<Byte>, c: seq<Byte>)
    ensures Flatten([a, b, c]) == a + b + c
  {
    assert [a, b, c] == [a] + ([b] + [c]);
    FlattenConcat([a], [b] + [c]);
    FlattenConcat([b], [c]);
    assert Flatten([a]) == a && Flatten([b]) == b && Flatten([c]) == c;
    ConcatAssociative(a, b, c);
  }

  lemma MapPush<T>(xs: seq<T>, i: nat, enc: T -> seq<Byte>)
    requires i < |xs|
    ensures Flatten(Map(xs[..i + 1], enc)) == Flatten(Map(xs[..i], enc)) + enc(xs[i])
  {
    assert Map(xs[..i + 1], enc) == Map(xs[..i], enc) + [enc(xs[i])];
    FlattenPush(Map(xs[..i], enc), enc(xs[i]));
  }

  method SetParts(sets: seq<GatewaySet>) returns (r: Outcome<seq<seq<Byte>>>)
    ensures r.Ok? <==> forall s :: s in sets ==> SetFits(s)
    ensures r.Ok? ==> Flatten(r.value) == Flatten(Map(sets, SetBytes))
  {
    hide SetBytes;
    hide TargetBytes;
    hide Flatten;
    hide Map;
    hide ToLe;
    hide TargetFits;
    var parts: seq<seq<Byte>> := [];
    for i := 0 to |sets|
      invariant forall s :: s in sets[..i] ==> SetFits(s)
      invariant Flatten(parts) == Flatten(Map(sets[..i], SetBytes))
    {
      var s := sets[i];
      if s.id < 0 || s.id > 0xffff_ffff || |s.targets| > 255 {
        assert s in sets && !SetFits(s);
        return Throws;
      }
      var targetParts := TargetParts(s.targets);
      if targetParts.Throws? {
        assert s in sets && !SetFits(s);
        return Throws;
      }
      var head: seq<seq<Byte>> := [U32le(s.id), [|s.targets|]];
      SetPushed(parts, head, targetParts.value, s);
      MapPush(sets, i, SetBytes);
      parts := parts + head + targetParts.value;
    }
    assert sets[..|sets|] == sets && sets[..0] == [];
    return Ok(parts);
  }

  lemma SetPushed(parts: seq<seq<Byte>>, head: seq<seq<Byte>>, targets: seq<seq<Byte>>, s: GatewaySet)
    requires |s.targets| < 256 && head == [U32le(s.id), [|s.targets|]]
    requires Flatten(targets) == Flatten(Map(s.targets, TargetBytes))
    ensures Flatten(parts + head + targets) == Flatten(parts) + SetBytes(s)
  {
    hide TargetBytes;
    hide Map;
    hide ToLe;
    assert head == [head[0]] + [head[1]];
    FlattenConcat([head[0]], [head[1]]);
    assert Flatten([head[0]]) == head[0] && Flatten([head[1]]) == head[1];
    FlattenConcat(parts + head, targets);
    FlattenConcat(parts, head);
    ConcatAssociative(Flatten(parts), Flatten(head), Flatten(targets));
  }

  method RuleParts(rules: seq<Rule>) returns (r: Outcome<seq<seq<Byte>>>)
    ensures r.Ok? <==> forall q :: q in rules ==> RuleFits(q)
    ensures r.Ok? ==> Flatten(r.value) == Flatten(Map(rules, RuleBytes))
  {
    hide PatternBytes;
    hide Flatten;
    hide Map;
    hide ToLe;
    hide LabelFits;
    var parts: seq<seq<Byte>> := [];
    for i := 0 to |rules|
      invariant forall q :: q in rules[..i] ==> RuleFits(q)
      invariant Flatten(parts) == Flatten(Map(rules[..i], RuleBytes))
    {
      var q := rules[i];
      if |q.pattern| > 255 || exists l :: l in q.pattern && !LabelFits(l) {
        assert q in rules && !RuleFits(q);
        return Throws;
      }
      var new1: seq<seq<Byte>> := [[q.priority % 256, q.flags % 256, |q.pattern| % 256],
                                   PatternBytes(q.pattern), U32le(q.setId)];
      FlattenConcat(parts, new1);
      FlattenThree(new1[0], new1[1], new1[2]);
      MapPush(rules, i, RuleBytes);
      parts := parts + new1;
    }
    assert rules[..|rules|] == rules;
    return Ok(parts);
  }

  method EncodeGatewayRoutesV1(g: Routes, canonicalize: bool) returns (r: Outcome<seq<Byte>>)
    ensures r == Encode(g, canonicalize)
  {
    hide Header;
    hide SetBytes;
    hide RuleBytes;
    hide Flatten;
    hide Map;
    hide Sort;
    hide SetFits;
    hide RuleFits;
    if |g.parent| != 32 || |g.owner| != 32 || g.nsId < 0 || g.nsId > 0xffff_ffff
       || (g.sig.Some? && |g.sig.value| != 64) {
      return Throws;
    }
    var a := Arrange(g, canonicalize);
    ArrangeFits(g, canonicalize);
    var gwParts := SetParts(a.sets);
    var ruleParts := RuleParts(a.rules);
    if gwParts.Throws? || ruleParts.Throws? {
      return Throws;
    }
    var body := ConcatBytes(gwParts.value + ruleParts.value + [a.owner]);
    FlattenPush(gwParts.value + ruleParts.value, a.owner);
    FlattenConcat(gwParts.value, ruleParts.value);
    var sets, rules := Flatten(gwParts.value), Flatten(ruleParts.value);
    ConcatAssociative(Header(a), sets + rules, a.owner);
    ConcatAssociative(Header(a), sets, rules);
    ConcatNothing(Header(a) + body[..]);
    return Ok(if a.sig.Some? then Header(a) + body[..] + a.sig.value else Header(a) + body[..]);
  }

  method DecodeTargets(b: seq<Byte>, start: nat, count: nat) returns (r: Step<seq<Target>>)
    ensures r == ReadMany(ReadTarget(b), start, count)
  {
    hide ReadMany;
    hide FromLe;
    hide Slice;
    hide Prepend;
    var targets: seq<Target>, off: nat := [], start;
    PrependEnds(ReadTarget(b), start, targets, ReadMany(ReadTarget(b), start, count));
    for t := 0 to count
      invariant ReadMany(ReadTarget(b), start, count) == Prepend(targets, ReadMany(ReadTarget(b), off, count - t))
    {
      ReadManyStep(ReadTarget(b), off, count - t, targets);
      var dlen := Read(b, off + 1, 2);
      if dlen.Throws? {
        return Fail;
      }
      var kind := b[off];
      off := off + 3;
      var data := Slice(b, off, off + dlen.value);
      off := off + dlen.value;
      targets := targets + [Target(kind, data)];
    }
    PrependEnds(ReadTarget(b), off, targets, Fail);
    return Next(targets, off);
  }

  method DecodeSets(b: seq<Byte>, start: nat, count: nat) returns (r: Step<seq<GatewaySet>>)
    ensures r == ReadMany(ReadSet(b), start, count)
  {
    hide ReadMany;
    hide FromLe;
    hide Slice;
    hide Prepend;
    hide ReadTarget;
    var sets: seq<GatewaySet>, off: nat := [], start;
    PrependEnds(ReadSet(b), start, sets, ReadMany(ReadSet(b), start, count));
    for i := 0 to count
      invariant ReadMany(ReadSet(b), start, count) == Prepend(sets, ReadMany(ReadSet(b), off, count - i))
    {
      ReadManyStep(ReadSet(b), off, count - i, sets);
      var id := Read(b, off, 4);
      if id.Throws? {
        return Fail;
      }
      off := off + 4;
      var targetCount := if off < |b| then b[off] else 0;
      var targets := DecodeTargets(b, off + 1, targetCount);
      match targets {
        case Next(ts, o) =>
          off := o;
          sets := sets + [GatewaySet(id.value, ts)];
        case Fail => return Fail;
        case NotANumber => return NotANumber;
      }
    }
    PrependEnds(ReadSet(b), off, sets, Fail);
    return Next(sets, off);
  }

  method DecodeLabels(b: seq<Byte>, start: nat, count: nat, dec: TextDecoder) returns (r: Step<seq<Label>>)
    ensures r == ReadMany(ReadLabel(b, dec), start, count)
  {
    hide ReadMany;
    hide FromLe;
    hide Slice;
    hide Prepend;
    var pattern: seq<Label>, off: nat := [], start;
    PrependEnds(ReadLabel(b, dec), start, pattern, ReadMany(ReadLabel(b, dec), start, count));
    for p := 0 to count
      invariant ReadMany(ReadLabel(b, dec), start, count)
             == Prepend(pattern, ReadMany(ReadLabel(b, dec), off, count - p))
    {
      ReadManyStep(ReadLabel(b, dec), off, count - p, pattern);
      var res := ReadLabel(b, dec)(off);
      if !res.Next? {
        return NotANumber;
      }
      pattern, off := pattern + [res.value], res.off;
    }
    PrependEnds(ReadLabel(b, dec), off, pattern, Fail);
    return Next(pattern, off);
  }

  method DecodeRules(b: seq<Byte>, start: nat, count: nat, dec: TextDecoder) returns (r: Step<seq<Rule>>)
    ensures r == ReadMany(ReadRule(b, dec), start, count)
  {
    hide ReadMany;
    hide FromLe;
    hide Slice;
    hide Prepend;
    hide ReadLabel;
    var rules: seq<Rule>, off: nat := [], start;
    PrependEnds(ReadRule(b, dec), start, rules, ReadMany(ReadRule(b, dec), start, count));
    for i := 0 to count
      invariant ReadMany(ReadRule(b, dec), start, count)
             == Prepend(rules, ReadMany(ReadRule(b, dec), off, count - i))
    {
      ReadManyStep(ReadRule(b, dec), off, count - i, rules);
      if off + 2 >= |b| {
        return Fail;
      }
      var pattern := DecodeLabels(b, off + 3, b[off + 2], dec);
      if pattern.NotANumber? {
        return NotANumber;
      } else if pattern.Fail? {
        return Fail;
      }
      var id := Read(b, pattern.off, 4);
      if id.Throws? {
        return Fail;
      }
      rules := rules + [Rule(b[off], b[off + 1], pattern.value, id.value)];
      off := pattern.off + 4;
    }
    PrependEnds(ReadRule(b, dec), off, rules, Fail);
    return Next(rules, off);
  }

  method DecodeGatewayRoutesV1(b: seq<Byte>, dec: TextDecoder) returns (d: Decoded)
    ensures d == Decode(b, dec)
  {
    if Slice(b, 0, 4) != GW_MAGIC || Slice(b, 4, 5) != [GW_VERSION] {
      return Failed;
    }
    var nsId, gSeq, gExp := Read(b, 5, 4), Read(b, 41, 8), Read(b, 49, 8);
    var gwsetCount, ruleCount := Read(b, 57, 2), Read(b, 59, 2);
    if nsId.Throws? || gSeq.Throws? || gExp.Throws? || gwsetCount.Throws? || ruleCount.Throws? {
      return Failed;
    }
    var sets := DecodeSets(b, 61, gwsetCount.value);
    if !sets.Next? {
      return if sets.Fail? then Failed else Garbled;
    }
    var rules := DecodeRules(b, sets.off, ruleCount.value, dec);
    if !rules.Next? {
      return if rules.Fail? then Failed else Garbled;
    }
    var off := rules.off;
    var ownerPub := Slice(b, off, off + 32);
    off := off + 32;
    var sig := if off + 64 <= |b| then Some(Slice(b, off, off + 64)) else None;
    return Done(Routes(nsId.value, Slice(b, 9, 41), gSeq.value, gExp.value, sets.value, rules.value, ownerPub, sig));
  }
}
