// gateway/src/adapters/recursive.ts: overlapRatio, hasSharedIp and selectBest.
module Quorum {
  import opened Sorting
  import opened Bytes

  datatype Status = NOERROR | NXDOMAIN | ERROR
  datatype Confidence = High | Medium | Low

  datatype DnsRecord = DnsRecord(name: string, kind: string, data: string, ttl: int)

  datatype Upstream = Upstream(url: string, rttMs: int, status: Status, answers: seq<DnsRecord>, ips: seq<string>,
                               ttlS: int, rrsetHash: string)

  datatype Selection = Selection(status: Status, confidence: Confidence, chosen: Upstream,
                                 considered: seq<Upstream>, ttlS: int)

  function Elements(s: seq<string>): set<string> {
    set x | x in s
  }

  predicate HasSharedIp(a: seq<string>, b: seq<string>) {
    a != [] && b != [] && exists ip :: ip in a && ip in b
  }

  function Min(a: int, b: int): int { if a <= b then a else b }
  function Max(a: int, b: int): int { if a <= b then b else a }

  function Ratio(a: seq<string>, b: seq<string>): real {
    if a == [] || b == [] then 0.0
    else |Elements(a) * Elements(b)| as real / Max(1, Min(|Elements(a)|, |Elements(b)|)) as real
  }

  lemma SharedStep(sa: set<string>, sb: set<string>, todo: set<string>, ip: string)
    requires todo <= sa && ip in todo
    ensures |(sa - (todo - {ip})) * sb| == |(sa - todo) * sb| + (if ip in sb then 1 else 0)
  {
    assert (sa - (todo - {ip})) * sb == (sa - todo) * sb + (if ip in sb then {ip} else {});
  }

  lemma SharedAll(sa: set<string>, sb: set<string>)
    ensures (sa - {}) * sb == sa * sb && (sa - sa) * sb == {}
  {
  }

  method OverlapRatio(a: seq<string>, b: seq<string>) returns (r: real)
    ensures r == Ratio(a, b)
  {
    if |a| == 0 || |b| == 0 {
      return 0.0;
    }
    hide Elements;
    var sa, sb := Elements(a), Elements(b);
    var shared, todo := 0, sa;
    SharedAll(sa, sb);
    while todo != {}
      invariant todo <= sa && shared == |(sa - todo) * sb|
      decreases todo
    {
      var ip :| ip in todo;
      SharedStep(sa, sb, todo, ip);
      if ip in sb {
        shared := shared + 1;
      }
      todo := todo - {ip};
    }
    SharedAll(sa, sb);
    return shared as real / Max(1, Min(|sa|, |sb|)) as real;
  }

  // The overlap is positive exactly when an address is shared.
  lemma RatioPositive(a: seq<string>, b: seq<string>)
    ensures Ratio(a, b) >= 0.0
    ensures Ratio(a, b) > 0.0 <==> HasSharedIp(a, b)
  {
    if a != [] && b != [] {
      var common := Elements(a) * Elements(b);
      var d := Max(1, Min(|Elements(a)|, |Elements(b)|)) as real;
      assert d >= 1.0;
      if HasSharedIp(a, b) {
        var ip :| ip in a && ip in b;
        assert ip in common && |common| > 0;
        assert |common| as real / d > 0.0;
      } else {
        assert common == {};
        assert 0.0 / d == 0.0;
      }
    }
  }

  // It is a share of the smaller set: 1 exactly when one set holds the other.
  lemma RatioIsShare(a: seq<string>, b: seq<string>)
    requires a != [] && b != []
    ensures Ratio(a, b) == Ratio(b, a) <= 1.0
    ensures Ratio(a, b) == 1.0 <==> (forall ip :: ip in a ==> ip in b) || (forall ip :: ip in b ==> ip in a)
  {
    var x, y := Elements(a), Elements(b);
    assert a[0] in x && b[0] in y;
    assert x * y == y * x;
    Within(x, y);
    Within(y, x);
    var n, d := |x * y|, Min(|x|, |y|);
    assert d >= 1;
    ShareOfOne(n, d);
    ElementsWithin(a, b);
    ElementsWithin(b, a);
  }

  lemma ElementsWithin(a: seq<string>, b: seq<string>)
    ensures (forall ip :: ip in a ==> ip in b) <==> Elements(a) <= Elements(b)
  {
    if Elements(a) <= Elements(b) {
      forall ip | ip in a ensures ip in b {
        assert ip in Elements(a);
      }
    }
  }

  lemma Within(x: set<string>, y: set<string>)
    ensures |x * y| <= |x| && (|x * y| == |x| <==> x <= y)
  {
    var common, rest := x * y, x - y;
    assert x == common + rest && common !! rest;
    assert |x| == |common| + |rest|;
    assert rest == {} <==> x <= y;
  }

  lemma ShareOfOne(n: nat, d: nat)
    requires n <= d && d >= 1
    ensures n as real / d as real <= 1.0 && (n as real / d as real == 1.0 <==> n == d)
  {
  }

  // ---------- what selectBest looks at ----------

  predicate IsUsable(u: Upstream) {
    u.status == NOERROR && u.ips != []
  }

  function Usable(us: seq<Upstream>): seq<Upstream> {
    Filter(us, IsUsable)
  }

  function HasHash(h: string): Upstream -> bool {
    (u: Upstream) => u.rrsetHash == h
  }

  // The upstreams of s that answered with one rrset hash, in order.
  function ClassOf(s: seq<Upstream>, h: string): seq<Upstream> {
    Filter(s, HasHash(h))
  }

  predicate Quorate(s: seq<Upstream>, quorumMin: int) {
    exists u :: u in s && |ClassOf(s, u.rrsetHash)| >= quorumMin
  }

  // A class no other class exceeds.
  ghost predicate Strongest(s: seq<Upstream>, c: seq<Upstream>) {
    (exists u :: u in s && c == ClassOf(s, u.rrsetHash))
    && forall u :: u in s ==> |ClassOf(s, u.rrsetHash)| <= |c|
  }

  // Where a class first appears.
  function FirstOf(s: seq<Upstream>, h: string): nat {
    FirstIndex(s, HasHash(h))
  }

  // Of the classes no other exceeds, the one that appeared first.
  ghost predicate LeadingFrom(s: seq<Upstream>, c: seq<Upstream>, u: Upstream) {
    && u in s && c == ClassOf(s, u.rrsetHash)
    && forall v :: v in s ==>
         var d := ClassOf(s, v.rrsetHash);
         |d| < |c| || (|d| == |c| && FirstOf(s, u.rrsetHash) <= FirstOf(s, v.rrsetHash))
  }

  ghost predicate Leading(s: seq<Upstream>, c: seq<Upstream>) {
    exists u :: LeadingFrom(s, c, u)
  }

  predicate TwoShareAnIp(s: seq<Upstream>) {
    exists i, j :: 0 <= i < j < |s| && HasSharedIp(s[i].ips, s[j].ips)
  }

  function RttOrder(a: Upstream, b: Upstream): bool { a.rttMs <= b.rttMs }

  // [...s].sort((a, b) => a.rttMs - b.rttMs)[0]
  function Fastest(s: seq<Upstream>): (r: Upstream)
    requires s != []
  {
    Sort(s, RttOrder)[0]
  }

  // A least round-trip time, and of those the first in the list.
  lemma FastestIsMinimum(s: seq<Upstream>)
    requires s != []
    ensures Fastest(s) in s && forall u :: u in s ==> Fastest(s).rttMs <= u.rttMs
    ensures exists k :: 0 <= k < |s| && Fastest(s) == s[k] && forall j :: 0 <= j < k ==> s[k].rttMs < s[j].rttMs
  {
    assert TotalPreorder(RttOrder);
    var k := SortHead(s, RttOrder);
    forall u | u in s ensures s[k].rttMs <= u.rttMs {
      var i :| 0 <= i < |s| && s[i] == u;
      assert RttOrder(s[k], s[i]);
    }
    forall j | 0 <= j < k ensures s[k].rttMs < s[j].rttMs {
      assert !RttOrder(s[j], s[k]);
    }
  }

  function MinTtl(s: seq<Upstream>): (r: int)
    requires s != []
    ensures forall u :: u in s ==> r <= u.ttlS
    ensures exists u :: u in s && r == u.ttlS
  {
    if |s| == 1 then s[0].ttlS
    else
      assert s == [s[0]] + s[1..];
      Min(s[0].ttlS, MinTtl(s[1..]))
  }

  // ---------- the loops ----------

  // A JavaScript Map keeps the order in which its keys first came.
  datatype Bucket = Bucket(hash: string, members: seq<Upstream>)

  // The classes come in the order of their first members.
  ghost predicate InOrder(buckets: seq<Bucket>, s: seq<Upstream>) {
    && (forall i :: 0 <= i < |buckets| ==> FirstOf(s, buckets[i].hash) < |s|)
    && (forall i, j :: 0 <= i < j < |buckets| ==> FirstOf(s, buckets[i].hash) < FirstOf(s, buckets[j].hash))
  }

  ghost predicate Grouped(buckets: seq<Bucket>, s: seq<Upstream>) {
    && (forall i, j :: 0 <= i < j < |buckets| ==> buckets[i].hash != buckets[j].hash)
    && InOrder(buckets, s)
    && (forall b :: b in buckets ==> b.members == ClassOf(s, b.hash) && b.members != [])
    && (forall u :: u in s ==> exists b :: b in buckets && b.hash == u.rrsetHash)
  }

  lemma {:induction false} FilterPush<T>(s: seq<T>, x: T, p: T -> bool)
    ensures Filter(s + [x], p) == Filter(s, p) + (if p(x) then [x] else [])
  {
    if s != [] {
      FilterPush(s[1..], x, p);
      assert (s + [x])[1..] == s[1..] + [x];
    } else {
      assert (s + [x])[1..] == [];
    }
  }

  lemma NothingGrouped(s: seq<Upstream>)
    requires s == []
    ensures Grouped([], s)
  {
  }

  method GroupByHash(s: seq<Upstream>) returns (buckets: seq<Bucket>)
    ensures Grouped(buckets, s)
  {
    hide Grouped;
    buckets := [];
    NothingGrouped(s[..0]);
    for k := 0 to |s|
      invariant Grouped(buckets, s[..k])
    {
      var u := s[k];
      assert s[..k + 1] == s[..k] + [u];
      var i := 0;
      while i < |buckets| && buckets[i].hash != u.rrsetHash
        invariant 0 <= i <= |buckets|
        invariant forall j :: 0 <= j < i ==> buckets[j].hash != u.rrsetHash
      {
        i := i + 1;
      }
      GroupStep(buckets, s[..k], u, i);
      var bucket := if i < |buckets| then buckets[i].members else [];
      bucket := bucket + [u];
      assert [] + [u] == [u];
      buckets := if i < |buckets| then buckets[i := Bucket(u.rrsetHash, bucket)]
                 else buckets + [Bucket(u.rrsetHash, bucket)];
    }
    assert s[..|s|] == s;
  }

  lemma {:induction false} ClassNonEmpty(s: seq<Upstream>, u: Upstream)
    requires u in s
    ensures u in ClassOf(s, u.rrsetHash)
  {
    if s[0] != u {
      assert u in s[1..];
      ClassNonEmpty(s[1..], u);
    }
  }

  function WithMember(buckets: seq<Bucket>, u: Upstream, i: nat): seq<Bucket>
    requires i <= |buckets|
  {
    if i < |buckets| then buckets[i := Bucket(u.rrsetHash, buckets[i].members + [u])]
    else buckets + [Bucket(u.rrsetHash, [u])]
  }

  lemma BucketStep(buckets: seq<Bucket>, s: seq<Upstream>, u: Upstream, i: nat, j: nat)
    requires Grouped(buckets, s) && i <= |buckets| && j < |WithMember(buckets, u, i)|
    requires forall k :: 0 <= k < |buckets| && k != i ==> buckets[k].hash != u.rrsetHash
    requires i < |buckets| ==> buckets[i].hash == u.rrsetHash
    ensures var b := WithMember(buckets, u, i)[j]; b.members == ClassOf(s + [u], b.hash) && b.members != []
  {
    hide Filter;
    var b := WithMember(buckets, u, i)[j];
    FilterPush(s, u, HasHash(b.hash));
    if j < |buckets| {
      assert buckets[j] in buckets;
    } else {
      NoClass(buckets, s, u);
    }
  }

  lemma CoveredStep(buckets: seq<Bucket>, s: seq<Upstream>, u: Upstream, i: nat, v: Upstream)
    requires Grouped(buckets, s) && i <= |buckets| && v in s + [u]
    requires i < |buckets| ==> buckets[i].hash == u.rrsetHash
    ensures exists b :: b in WithMember(buckets, u, i) && b.hash == v.rrsetHash
  {
    var r := WithMember(buckets, u, i);
    if v.rrsetHash == u.rrsetHash {
      assert r[i] in r;
    } else {
      var b :| b in buckets && b.hash == v.rrsetHash;
      var j :| 0 <= j < |buckets| && buckets[j] == b;
      assert r[j] in r && r[j] == b;
    }
  }

  lemma OrderStep(buckets: seq<Bucket>, s: seq<Upstream>, u: Upstream, i: nat)
    requires Grouped(buckets, s) && i <= |buckets| && (i < |buckets| ==> buckets[i].hash == u.rrsetHash)
    requires forall j :: 0 <= j < i ==> buckets[j].hash != u.rrsetHash
    ensures InOrder(WithMember(buckets, u, i), s + [u])
  {
    hide FirstIndex, ClassOf;
    var r := WithMember(buckets, u, i);
    forall j | 0 <= j < |r|
      ensures FirstOf(s + [u], r[j].hash) == if j < |buckets| then FirstOf(s, r[j].hash) else |s|
    {
      FirstIndexPush(s, u, HasHash(r[j].hash));
      if j == |buckets| {
        NotYet(buckets, s, u);
      }
    }
  }

  lemma NotYet(buckets: seq<Bucket>, s: seq<Upstream>, u: Upstream)
    requires Grouped(buckets, s) && forall j :: 0 <= j < |buckets| ==> buckets[j].hash != u.rrsetHash
    ensures FirstOf(s, u.rrsetHash) == |s|
  {
    forall v | v in s ensures !HasHash(u.rrsetHash)(v) {
      var b :| b in buckets && b.hash == v.rrsetHash;
    }
    FirstIndexIs(s, HasHash(u.rrsetHash), |s|);
  }

  lemma GroupStep(buckets: seq<Bucket>, s: seq<Upstream>, u: Upstream, i: nat)
    requires Grouped(buckets, s) && i <= |buckets|
    requires forall j :: 0 <= j < i ==> buckets[j].hash != u.rrsetHash
    requires i < |buckets| ==> buckets[i].hash == u.rrsetHash
    ensures Grouped(WithMember(buckets, u, i), s + [u])
  {
    hide ClassOf, InOrder;
    OrderStep(buckets, s, u, i);
    var r := WithMember(buckets, u, i);
    assert forall k :: 0 <= k < |buckets| && k != i ==> buckets[k].hash != u.rrsetHash;
    forall b | b in r ensures b.members == ClassOf(s + [u], b.hash) && b.members != [] {
      var j :| 0 <= j < |r| && r[j] == b;
      BucketStep(buckets, s, u, i, j);
    }
    forall v | v in s + [u] ensures exists b :: b in r && b.hash == v.rrsetHash {
      CoveredStep(buckets, s, u, i, v);
    }
  }

  lemma NoClass(buckets: seq<Bucket>, s: seq<Upstream>, u: Upstream)
    requires Grouped(buckets, s) && forall k :: 0 <= k < |buckets| ==> buckets[k].hash != u.rrsetHash
    ensures ClassOf(s, u.rrsetHash) == []
  {
    forall v | v in s ensures v.rrsetHash != u.rrsetHash {
      var b :| b in buckets && b.hash == v.rrsetHash;
    }
    FilterNone(s, HasHash(u.rrsetHash));
  }

  lemma {:induction false} FilterNone<T>(s: seq<T>, p: T -> bool)
    requires forall x :: x in s ==> !p(x)
    ensures Filter(s, p) == []
  {
    if s != [] {
      assert forall x :: x in s[1..] ==> x in s;
      FilterNone(s[1..], p);
    }
  }

  function SizeOrder(a: Bucket, b: Bucket): bool { |a.members| >= |b.members| }

  // The largest class, the first of several: the sort is stable.
  method StrongestClass(s: seq<Upstream>) returns (c: seq<Upstream>)
    requires s != []
    ensures Strongest(s, c) && Leading(s, c) && c != []
  {
    var byHash := GroupByHash(s);
    assert s[0] in s;
    assert byHash != [];
    var hashGroups := Sort(byHash, SizeOrder);
    c := hashGroups[0].members;
    HeadLeads(byHash, s);
  }

  lemma HeadLeads(byHash: seq<Bucket>, s: seq<Upstream>)
    requires Grouped(byHash, s) && byHash != []
    ensures var c := Sort(byHash, SizeOrder)[0].members; Strongest(s, c) && Leading(s, c) && c != []
  {
    hide Sort, FirstOf, Filter;
    assert TotalPreorder(SizeOrder);
    var k := SortHead(byHash, SizeOrder);
    var head := byHash[k];
    assert head in byHash;
    var c := head.members;
    assert c[0] in c && c[0] in s && c[0].rrsetHash == head.hash;
    forall v | v in s
      ensures var d := ClassOf(s, v.rrsetHash);
              |d| < |c| || (|d| == |c| && FirstOf(s, head.hash) <= FirstOf(s, v.rrsetHash))
    {
      var b :| b in byHash && b.hash == v.rrsetHash;
      var j :| 0 <= j < |byHash| && byHash[j] == b;
      assert SizeOrder(byHash[k], byHash[j]);
      assert j < k ==> !SizeOrder(byHash[j], byHash[k]);
    }
    assert LeadingFrom(s, c, c[0]);
  }

  predicate Overlaps(a: Upstream, b: Upstream, threshold: real) {
    HasSharedIp(a.ips, b.ips) || Ratio(a.ips, b.ips) >= threshold
  }

  ghost predicate Overlapping(s: seq<Upstream>, threshold: real, p: nat, q: nat) {
    p < q < |s| && Overlaps(s[p], s[q], threshold)
  }

  ghost predicate SomeOverlap(s: seq<Upstream>, threshold: real) {
    exists p: nat, q: nat :: Overlapping(s, threshold, p, q)
  }

  predicate Before(p: nat, q: nat, i: nat, j: nat) {
    p < i || (p == i && q < j)
  }

  // u belongs to an overlapping pair that the loops reach before the pair (i, j).
  ghost predicate Found(s: seq<Upstream>, threshold: real, i: nat, j: nat, u: Upstream) {
    exists p: nat, q: nat :: Overlapping(s, threshold, p, q) && Before(p, q, i, j) && (u == s[p] || u == s[q])
  }

  lemma FoundStep(s: seq<Upstream>, threshold: real, i: nat, j: nat, u: Upstream)
    requires i < j < |s|
    ensures Found(s, threshold, i, j + 1, u)
       <==> Found(s, threshold, i, j, u) || (Overlaps(s[i], s[j], threshold) && (u == s[i] || u == s[j]))
  {
    hide Overlaps;
    if Found(s, threshold, i, j + 1, u) {
      var p: nat, q: nat :| Overlapping(s, threshold, p, q) && Before(p, q, i, j + 1) && (u == s[p] || u == s[q]);
      assert Before(p, q, i, j) || (p == i && q == j);
    }
    if Found(s, threshold, i, j, u) {
      var p: nat, q: nat :| Overlapping(s, threshold, p, q) && Before(p, q, i, j) && (u == s[p] || u == s[q]);
      assert Before(p, q, i, j + 1);
    }
    if Overlaps(s[i], s[j], threshold) {
      assert Overlapping(s, threshold, i, j) && Before(i, j, i, j + 1);
    }
  }

  lemma FoundRow(s: seq<Upstream>, threshold: real, i: nat, u: Upstream)
    requires i < |s|
    ensures Found(s, threshold, i, i + 1, u) <==> Found(s, threshold, i, 0, u)
  {
    hide Overlaps;
    forall p: nat, q: nat | Overlapping(s, threshold, p, q)
      ensures Before(p, q, i, i + 1) <==> Before(p, q, i, 0)
    {
    }
  }

  lemma AddPair(c: seq<Upstream>, a: Upstream, b: Upstream)
    ensures forall u :: u in c + [a, b] <==> u in c || u == a || u == b
  {
  }

  // What the inner loop pushes for s[i], up to j.
  function Row(s: seq<Upstream>, threshold: real, i: nat, j: nat): seq<Upstream>
    requires i < |s| && j <= |s|
    decreases j
  {
    if j <= i + 1 then []
    else Row(s, threshold, i, j - 1) + (if Overlaps(s[i], s[j - 1], threshold) then [s[i], s[j - 1]] else [])
  }

  // What the loops have pushed before row i.
  function Rows(s: seq<Upstream>, threshold: real, i: nat): seq<Upstream>
    requires i <= |s|
    decreases i
  {
    if i == 0 then [] else Rows(s, threshold, i - 1) + Row(s, threshold, i - 1, |s|)
  }

  method OverlapCandidates(s: seq<Upstream>, threshold: real) returns (c: seq<Upstream>)
    ensures c == Rows(s, threshold, |s|)
  {
    hide HasSharedIp;
    hide Ratio;
    c := [];
    for i := 0 to |s|
      invariant c == Rows(s, threshold, i)
    {
      for j := i + 1 to |s|
        invariant c == Rows(s, threshold, i) + Row(s, threshold, i, j)
      {
        var a, b := s[i], s[j];
        var ratio := OverlapRatio(a.ips, b.ips);
        if HasSharedIp(a.ips, b.ips) || ratio >= threshold {
          c := c + [a, b];
        }
      }
    }
  }

  lemma {:induction false} RowFound(s: seq<Upstream>, threshold: real, i: nat, j: nat, before: seq<Upstream>)
    requires i < |s| && i < j <= |s| && forall u :: u in before <==> Found(s, threshold, i, 0, u)
    ensures forall u :: u in before + Row(s, threshold, i, j) <==> Found(s, threshold, i, j, u)
    decreases j
  {
    hide Found, Overlaps;
    if j == i + 1 {
      forall u ensures Found(s, threshold, i, j, u) <==> Found(s, threshold, i, 0, u) {
        FoundRow(s, threshold, i, u);
      }
    } else {
      RowFound(s, threshold, i, j - 1, before);
      var c := before + Row(s, threshold, i, j - 1);
      AddPair(c, s[i], s[j - 1]);
      forall u ensures u in before + Row(s, threshold, i, j) <==> Found(s, threshold, i, j, u) {
        FoundStep(s, threshold, i, j - 1, u);
        assert u in c <==> Found(s, threshold, i, j - 1, u);
      }
    }
  }

  // Exactly the members of the overlapping pairs are pushed.
  lemma {:induction false} RowsFound(s: seq<Upstream>, threshold: real, i: nat)
    requires i <= |s|
    ensures forall u :: u in Rows(s, threshold, i) <==> Found(s, threshold, i, 0, u)
  {
    hide Found, Row;
    if i == 0 {
      forall u ensures !Found(s, threshold, 0, 0, u) {
        NothingBefore(s, threshold, u);
      }
    } else {
      RowsFound(s, threshold, i - 1);
      RowFound(s, threshold, i - 1, |s|, Rows(s, threshold, i - 1));
      forall u ensures Found(s, threshold, i - 1, |s|, u) <==> Found(s, threshold, i, 0, u) {
        RowEnds(s, threshold, i - 1, u);
      }
    }
  }

  lemma NothingBefore(s: seq<Upstream>, threshold: real, u: Upstream)
    ensures !Found(s, threshold, 0, 0, u)
  {
  }

  lemma RowEnds(s: seq<Upstream>, threshold: real, i: nat, u: Upstream)
    requires i < |s|
    ensures Found(s, threshold, i, |s|, u) <==> Found(s, threshold, i + 1, 0, u)
  {
    hide Overlaps;
    forall p: nat, q: nat | Overlapping(s, threshold, p, q) ensures Before(p, q, i, |s|) <==> Before(p, q, i + 1, 0) {
    }
  }

  function HasUrl(url: string): Upstream -> bool {
    (u: Upstream) => u.url == url
  }

  // Map.set: in the place of the url, or behind the others.
  function SetUrl(r: seq<Upstream>, u: Upstream): seq<Upstream> {
    var i := FirstIndex(r, HasUrl(u.url));
    if i < |r| then r[i := u] else r + [u]
  }

  // new Map: the last value of a url wins, at the place where the url first came.
  function LastByUrl(c: seq<Upstream>): seq<Upstream> {
    if c == [] then [] else SetUrl(LastByUrl(c[..|c| - 1]), c[|c| - 1])
  }

  method UniqueByUrl(c: seq<Upstream>) returns (r: seq<Upstream>)
    ensures r == LastByUrl(c) && OnePerUrl(r, c)
  {
    r := [];
    for k := 0 to |c|
      invariant r == LastByUrl(c[..k])
    {
      var u := c[k];
      var i := 0;
      while i < |r| && r[i].url != u.url
        invariant 0 <= i <= |r| && forall j :: 0 <= j < i ==> r[j].url != u.url
      {
        i := i + 1;
      }
      FirstIndexIs(r, HasUrl(u.url), i);
      assert c[..k + 1][..k] == c[..k];
      r := if i < |r| then r[i := u] else r + [u];
    }
    assert c[..|c|] == c;
    LastByUrlMeans(c);
  }

  function FirstUrl(c: seq<Upstream>, url: string): nat {
    FirstIndex(c, HasUrl(url))
  }

  // u is the last of its url in c.
  ghost predicate LastOfUrl(c: seq<Upstream>, u: Upstream) {
    exists i :: 0 <= i < |c| && c[i] == u && forall k :: i < k < |c| ==> c[k].url != u.url
  }

  // One upstream for each url: the last one, at the place where the url first came.
  ghost predicate OnePerUrl(r: seq<Upstream>, c: seq<Upstream>) {
    && (forall u :: u in r ==> LastOfUrl(c, u))
    && (forall p :: 0 <= p < |r| ==> FirstUrl(c, r[p].url) < |c|)
    && (forall p, q :: 0 <= p < q < |r| ==> FirstUrl(c, r[p].url) < FirstUrl(c, r[q].url))
    && (forall u :: u in c ==> exists v :: v in r && v.url == u.url)
  }

  lemma LastPush(c: seq<Upstream>, u: Upstream, v: Upstream)
    ensures LastOfUrl(c + [u], u)
    ensures LastOfUrl(c, v) && v.url != u.url ==> LastOfUrl(c + [u], v)
  {
    var t := c + [u];
    assert t[|c|] == u;
    if LastOfUrl(c, v) && v.url != u.url {
      var i :| 0 <= i < |c| && c[i] == v && forall k :: i < k < |c| ==> c[k].url != v.url;
      assert t[i] == v && forall k :: i < k < |t| ==> t[k].url != v.url;
    }
  }

  lemma PlacesStay(r: seq<Upstream>, c: seq<Upstream>, u: Upstream)
    requires OnePerUrl(r, c)
    ensures var t := SetUrl(r, u);
            && (forall p :: 0 <= p < |t| ==> FirstUrl(c + [u], t[p].url) < |c + [u]|)
            && (forall p, q :: 0 <= p < q < |t| ==> FirstUrl(c + [u], t[p].url) < FirstUrl(c + [u], t[q].url))
  {
    hide FirstIndex, LastOfUrl;
    var t, i := SetUrl(r, u), FirstIndex(r, HasUrl(u.url));
    assert i < |r| ==> HasUrl(u.url)(r[i]);
    forall p | 0 <= p < |t|
      ensures FirstUrl(c + [u], t[p].url) == if p < |r| then FirstUrl(c, r[p].url) else |c|
    {
      FirstIndexPush(c, u, HasUrl(t[p].url));
      if p == |r| {
        UrlNotYet(r, c, u);
      }
    }
  }

  lemma UrlNotYet(r: seq<Upstream>, c: seq<Upstream>, u: Upstream)
    requires OnePerUrl(r, c) && FirstIndex(r, HasUrl(u.url)) == |r|
    ensures FirstUrl(c, u.url) == |c|
  {
    forall v | v in c ensures !HasUrl(u.url)(v) {
      var w :| w in r && w.url == v.url;
      var p :| 0 <= p < |r| && r[p] == w;
      assert !HasUrl(u.url)(r[p]);
    }
    FirstIndexIs(c, HasUrl(u.url), |c|);
  }

  lemma MembersStay(r: seq<Upstream>, c: seq<Upstream>, u: Upstream)
    requires OnePerUrl(r, c)
    ensures forall v :: v in SetUrl(r, u) ==> LastOfUrl(c + [u], v)
    ensures forall v :: v in c + [u] ==> exists w :: w in SetUrl(r, u) && w.url == v.url
  {
    hide LastOfUrl, FirstUrl;
    var t, i := SetUrl(r, u), FirstIndex(r, HasUrl(u.url));
    forall v | v in t ensures LastOfUrl(c + [u], v) {
      LastPush(c, u, v);
      if v != u {
        OthersOfSet(r, c, u, v);
      }
    }
    forall v | v in c + [u] ensures exists w :: w in t && w.url == v.url {
      SetCovers(r, c, u, v);
    }
  }

  lemma OthersOfSet(r: seq<Upstream>, c: seq<Upstream>, u: Upstream, v: Upstream)
    requires OnePerUrl(r, c) && v in SetUrl(r, u) && v != u
    ensures v in r && v.url != u.url
  {
    hide LastOfUrl, FirstUrl;
    var t, i := SetUrl(r, u), FirstIndex(r, HasUrl(u.url));
    var p :| 0 <= p < |t| && t[p] == v;
    assert p < |r| && p != i && r[p] == v;
    assert p < i ==> !HasUrl(u.url)(r[p]);
    assert i < |r| ==> HasUrl(u.url)(r[i]);
    assert i < p ==> FirstUrl(c, r[i].url) < FirstUrl(c, r[p].url);
  }

  lemma SetCovers(r: seq<Upstream>, c: seq<Upstream>, u: Upstream, v: Upstream)
    requires OnePerUrl(r, c) && v in c + [u]
    ensures exists w :: w in SetUrl(r, u) && w.url == v.url
  {
    hide LastOfUrl, FirstUrl;
    var t, i := SetUrl(r, u), FirstIndex(r, HasUrl(u.url));
    assert t[i] == u && t[i] in t;
    if v.url != u.url {
      assert v in c;
      var w :| w in r && w.url == v.url;
      var p :| 0 <= p < |r| && r[p] == w;
      assert i < |r| ==> HasUrl(u.url)(r[i]);
      assert p != i && t[p] == w && t[p] in t;
    }
  }

  lemma NothingPerUrl()
    ensures OnePerUrl([], [])
  {
  }

  lemma OneMoreUrl(r: seq<Upstream>, c: seq<Upstream>, u: Upstream)
    requires OnePerUrl(r, c)
    ensures OnePerUrl(SetUrl(r, u), c + [u])
  {
    hide SetUrl, LastOfUrl, FirstUrl;
    PlacesStay(r, c, u);
    MembersStay(r, c, u);
  }

  lemma {:induction false} LastByUrlMeans(c: seq<Upstream>)
    ensures OnePerUrl(LastByUrl(c), c)
  {
    hide OnePerUrl, SetUrl;
    NothingPerUrl();
    if c != [] {
      var m := |c| - 1;
      LastByUrlMeans(c[..m]);
      assert c == c[..m] + [c[m]];
      OneMoreUrl(LastByUrl(c[..m]), c[..m], c[m]);
    }
  }

  predicate IsNxdomain(u: Upstream) { u.status == NXDOMAIN }

  // n.ttlS || 30
  function NegativeTtl(u: Upstream): int { if u.ttlS == 0 then 30 else u.ttlS }

  function MinNegativeTtl(s: seq<Upstream>): (r: int)
    requires s != []
    ensures forall u :: u in s ==> r <= NegativeTtl(u)
    ensures exists u :: u in s && r == NegativeTtl(u)
  {
    if |s| == 1 then NegativeTtl(s[0])
    else
      assert s == [s[0]] + s[1..];
      Min(NegativeTtl(s[0]), MinNegativeTtl(s[1..]))
  }

  // What medium confidence considers: the members of the overlapping pairs, one for each url.
  function Overlapped(s: seq<Upstream>, threshold: real): seq<Upstream> {
    LastByUrl(Rows(s, threshold, |s|))
  }

  lemma OverlappedFound(s: seq<Upstream>, threshold: real)
    ensures forall u :: u in Overlapped(s, threshold) ==> Found(s, threshold, |s|, 0, u)
    ensures Rows(s, threshold, |s|) != [] <==> SomeOverlap(s, threshold)
    ensures Overlapped(s, threshold) != [] <==> SomeOverlap(s, threshold)
  {
    hide Found, Rows, SomeOverlap, FirstUrl, LastByUrl;
    var c := Rows(s, threshold, |s|);
    RowsFound(s, threshold, |s|);
    CandidatesExist(s, threshold, c);
    LastByUrlMeans(c);
    forall u | u in LastByUrl(c) ensures u in c {
      assert LastOfUrl(c, u);
    }
    if c != [] {
      assert c[0] in c;
    }
    if LastByUrl(c) != [] {
      assert LastByUrl(c)[0] in LastByUrl(c);
    }
  }

  // The first matching case decides: a class with quorum, overlapping answers, any answer,
  // NXDOMAIN, an exception.
  ghost predicate Selects(upstreams: seq<Upstream>, quorumMin: int, overlapThreshold: real, ttlCapS: int,
                          r: Outcome<Selection>)
  {
    var s, n := Usable(upstreams), Filter(upstreams, IsNxdomain);
    if s != [] then
      && r.Ok? && r.value.status == NOERROR
      && r.value.considered != [] && r.value.chosen == Fastest(r.value.considered)
      && if Quorate(s, quorumMin) then
           && r.value.confidence == High && Leading(s, r.value.considered)
           && r.value.ttlS == Max(1, Min(MinTtl(r.value.considered), ttlCapS))
         else if SomeOverlap(s, overlapThreshold) then
           && r.value.confidence == Medium && r.value.considered == Overlapped(s, overlapThreshold)
           && r.value.ttlS == Max(1, Min(Min(MinTtl(r.value.considered), ttlCapS), 120))
         else
           && r.value.confidence == Low && r.value.considered == [Fastest(s)]
           && r.value.ttlS == Max(1, Min(Min(Fastest(s).ttlS, ttlCapS), 30))
    else if n != [] then
      r == Ok(Selection(NXDOMAIN, if |n| >= quorumMin then Medium else Low, Fastest(n), n,
                        Max(1, Min(MinNegativeTtl(n), 30))))
    else r == Throws
  }

  method SelectBest(upstreams: seq<Upstream>, quorumMin: int, overlapThreshold: real, ttlCapS: int)
    returns (r: Outcome<Selection>)
    ensures Selects(upstreams, quorumMin, overlapThreshold, ttlCapS, r)
  {
    hide Found;
    hide Overlaps;
    hide MinTtl;
    hide MinNegativeTtl;
    hide Sort;
    hide OnePerUrl;
    hide Rows;
    hide LastByUrl;
    hide SomeOverlap;
    hide Quorate;
    hide Strongest;
    hide Leading;
    hide Fastest;
    hide Filter;
    hide Usable;
    hide Found;
    var successful := Usable(upstreams);
    if |successful| > 0 {
      var strongest := StrongestClass(successful);
      StrongestDecides(successful, strongest, quorumMin);
      if |strongest| >= quorumMin {
        return Ok(Selection(NOERROR, High, Fastest(strongest), strongest, Max(1, Min(MinTtl(strongest), ttlCapS))));
      }
      var overlapCandidates := OverlapCandidates(successful, overlapThreshold);
      OverlappedFound(successful, overlapThreshold);
      if |overlapCandidates| > 0 {
        var considered := UniqueByUrl(overlapCandidates);
        return Ok(Selection(NOERROR, Medium, Fastest(considered), considered,
                            Max(1, Min(Min(MinTtl(considered), ttlCapS), 120))));
      }
      var chosen := Fastest(successful);
      FastestOfOne(chosen);
      return Ok(Selection(NOERROR, Low, chosen, [chosen], Max(1, Min(Min(chosen.ttlS, ttlCapS), 30))));
    }
    var nxdomain := Filter(upstreams, IsNxdomain);
    if |nxdomain| > 0 {
      var confidence := if |nxdomain| >= quorumMin then Medium else Low;
      return Ok(Selection(NXDOMAIN, confidence, Fastest(nxdomain), nxdomain,
                          Max(1, Min(MinNegativeTtl(nxdomain), 30))));
    }
    return Throws;
  }

  lemma StrongestDecides(s: seq<Upstream>, c: seq<Upstream>, quorumMin: int)
    requires Strongest(s, c)
    ensures Quorate(s, quorumMin) <==> |c| >= quorumMin
  {
  }

  lemma FastestOfOne(u: Upstream)
    ensures Fastest([u]) == u
  {
    assert Sort([u], RttOrder) == Insert(u, Sort([], RttOrder), RttOrder);
  }

  lemma CandidatesExist(s: seq<Upstream>, threshold: real, c: seq<Upstream>)
    requires forall u :: u in c <==> Found(s, threshold, |s|, 0, u)
    ensures c != [] <==> SomeOverlap(s, threshold)
  {
    if SomeOverlap(s, threshold) {
      var p: nat, q: nat :| Overlapping(s, threshold, p, q);
      assert Before(p, q, |s|, 0);
      assert Found(s, threshold, |s|, 0, s[p]);
    }
    if c != [] {
      assert c[0] in c;
    }
  }

  // ---------- what the answer tells ----------

  // With a positive threshold, overlapping means sharing an address.
  lemma OverlapIsSharing(s: seq<Upstream>, threshold: real)
    requires threshold > 0.0
    ensures SomeOverlap(s, threshold) <==> TwoShareAnIp(s)
  {
    if SomeOverlap(s, threshold) {
      var p: nat, q: nat :| Overlapping(s, threshold, p, q);
      RatioPositive(s[p].ips, s[q].ips);
      assert 0 <= p < q < |s| && HasSharedIp(s[p].ips, s[q].ips);
    }
    if TwoShareAnIp(s) {
      var i, j :| 0 <= i < j < |s| && HasSharedIp(s[i].ips, s[j].ips);
      assert Overlapping(s, threshold, i, j);
    }
  }

  predicate TtlsPositive(us: seq<Upstream>) {
    forall u :: u in us ==> u.ttlS >= 1
  }

  lemma ConsideredAreUsable(upstreams: seq<Upstream>, quorumMin: int, overlapThreshold: real, ttlCapS: int,
                            sel: Selection)
    requires Selects(upstreams, quorumMin, overlapThreshold, ttlCapS, Ok(sel)) && sel.status == NOERROR
    requires Usable(upstreams) != []
    ensures forall u :: u in sel.considered ==> u in Usable(upstreams) && u in upstreams
  {
    hide Found;
    hide MinTtl;
    hide Fastest;
    var s := Usable(upstreams);
    FastestIsMinimum(s);
    forall u | u in sel.considered ensures u in s {
      if Quorate(s, quorumMin) {
      } else if SomeOverlap(s, overlapThreshold) {
        OverlappedFound(s, overlapThreshold);
        FoundMember(s, overlapThreshold, u);
      }
    }
  }

  // High exactly when a class has quorum, and then a largest class was considered; medium exactly
  // when none has and two upstreams share an address; low exactly when neither. The chosen
  // upstream is a fastest considered one, and no considered one has a smaller TTL.
  lemma ClassificationExact(upstreams: seq<Upstream>, quorumMin: int, overlapThreshold: real, ttlCapS: int,
                            sel: Selection)
    requires Selects(upstreams, quorumMin, overlapThreshold, ttlCapS, Ok(sel))
    requires overlapThreshold > 0.0 && ttlCapS >= 1 && TtlsPositive(upstreams)
    ensures sel.status == NOERROR <==> Usable(upstreams) != []
    ensures sel.status == NOERROR ==>
              var s := Usable(upstreams);
              && (sel.confidence == High <==> Quorate(s, quorumMin))
              && (sel.confidence == Medium <==> !Quorate(s, quorumMin) && TwoShareAnIp(s))
              && (sel.confidence == Low <==> !Quorate(s, quorumMin) && !TwoShareAnIp(s))
              && (sel.confidence == High ==> Strongest(s, sel.considered) && Leading(s, sel.considered))
    ensures sel.chosen in sel.considered && forall u :: u in sel.considered ==> sel.chosen.rttMs <= u.rttMs
    ensures sel.status == NOERROR ==>
              && 1 <= sel.ttlS <= ttlCapS
              && forall u :: u in sel.considered ==> u in Usable(upstreams) && sel.ttlS <= u.ttlS
  {
    hide Found;
    hide Fastest;
    hide Strongest;
    hide Leading;
    hide TwoShareAnIp;
    hide Quorate;
    hide SomeOverlap;
    hide Filter;
    hide Overlapped;
    FastestIsMinimum(sel.considered);
    if sel.status == NOERROR {
      FilterUsable(upstreams);
      ConsideredAreUsable(upstreams, quorumMin, overlapThreshold, ttlCapS, sel);
      OverlapIsSharing(Usable(upstreams), overlapThreshold);
      hide Usable;
      LeadingIsStrongest(Usable(upstreams), sel.considered);
    }
  }

  lemma LeadingIsStrongest(s: seq<Upstream>, c: seq<Upstream>)
    ensures Leading(s, c) ==> Strongest(s, c)
  {
    hide ClassOf, FirstOf;
  }

  // Nothing is left open: every input has one selection.
  lemma SelectionUnique(upstreams: seq<Upstream>, quorumMin: int, overlapThreshold: real, ttlCapS: int,
                        r: Outcome<Selection>, r': Outcome<Selection>)
    requires Selects(upstreams, quorumMin, overlapThreshold, ttlCapS, r)
    requires Selects(upstreams, quorumMin, overlapThreshold, ttlCapS, r')
    ensures r == r'
  {
    hide Leading, Usable, Filter, Fastest, Quorate, SomeOverlap, Overlapped, MinTtl, MinNegativeTtl;
    if r.Ok? && r'.Ok? {
      LeadingUnique(Usable(upstreams), r.value.considered, r'.value.considered);
    }
  }

  lemma LeadingUnique(s: seq<Upstream>, c: seq<Upstream>, d: seq<Upstream>)
    ensures Leading(s, c) && Leading(s, d) ==> c == d
  {
    if Leading(s, c) && Leading(s, d) {
      hide FirstIndex, Filter, ClassOf;
      var u :| LeadingFrom(s, c, u);
      var v :| LeadingFrom(s, d, v);
      SameFirst(s, u, v);
    }
  }

  lemma SameFirst(s: seq<Upstream>, u: Upstream, v: Upstream)
    requires u in s && v in s
    ensures FirstOf(s, u.rrsetHash) == FirstOf(s, v.rrsetHash) ==> u.rrsetHash == v.rrsetHash
  {
    var i, k := FirstOf(s, u.rrsetHash), FirstOf(s, v.rrsetHash);
    var a :| 0 <= a < |s| && s[a] == u;
    var b :| 0 <= b < |s| && s[b] == v;
    assert HasHash(u.rrsetHash)(s[a]) && HasHash(v.rrsetHash)(s[b]);
    assert HasHash(u.rrsetHash)(s[i]) && HasHash(v.rrsetHash)(s[k]);
  }

  lemma FilterUsable(upstreams: seq<Upstream>)
    ensures forall u :: u in Usable(upstreams) ==> u in upstreams
  {
  }

  lemma FoundMember(s: seq<Upstream>, threshold: real, u: Upstream)
    requires Found(s, threshold, |s|, 0, u)
    ensures u in s
  {
  }

  // ---------- what the selection means, on the upstreams' own fields ----------

  // A selection fails exactly when no upstream says NXDOMAIN and none has an address; it
  // succeeds with NOERROR exactly when one has.
  lemma FailsExactly(upstreams: seq<Upstream>, quorumMin: int, overlapThreshold: real, ttlCapS: int,
                     r: Outcome<Selection>)
    requires Selects(upstreams, quorumMin, overlapThreshold, ttlCapS, r)
    ensures r.Throws? <==>
              forall u :: u in upstreams ==> u.status != NXDOMAIN && (u.status != NOERROR || u.ips == [])
    ensures r.Ok? ==> r.value.status in {NOERROR, NXDOMAIN}
    ensures r.Ok? ==> (r.value.status == NOERROR <==>
                         exists u :: u in upstreams && u.status == NOERROR && u.ips != [])
  {
    hide Filter, Leading, Overlapped, SomeOverlap, Quorate, Fastest, MinTtl, MinNegativeTtl;
    SomePass(upstreams, IsUsable);
    SomePass(upstreams, IsNxdomain);
  }

  lemma SomePass<T>(s: seq<T>, p: T -> bool)
    ensures Filter(s, p) != [] <==> exists x :: x in s && p(x)
  {
    var r := Filter(s, p);
    var at := FilterPicks(s, p);
    if r != [] {
      assert r[0] in r;
    }
    if x :| x in s && p(x) {
      var k :| 0 <= k < |s| && s[k] == x;
      assert k in at;
    }
  }

  // x is a least of the values f takes on s.
  ghost predicate LeastOf(s: seq<Upstream>, f: Upstream -> int, x: int) {
    (forall u :: u in s ==> x <= f(u)) && exists u :: u in s && f(u) == x
  }

  function SaysNxdomain(): Upstream -> bool {
    (u: Upstream) => u.status == NXDOMAIN
  }

  // Where a TTL of 0 counts as 30.
  function NxdomainTtl(): Upstream -> int {
    (u: Upstream) => if u.ttlS == 0 then 30 else u.ttlS
  }

  // An NXDOMAIN selection rests on exactly the upstreams that say so, and on their least TTL.
  lemma NxdomainExactly(upstreams: seq<Upstream>, quorumMin: int, overlapThreshold: real, ttlCapS: int, sel: Selection)
    returns (at: seq<nat>, m: int)
    requires Selects(upstreams, quorumMin, overlapThreshold, ttlCapS, Ok(sel)) && sel.status == NXDOMAIN
    ensures Picks(upstreams, SaysNxdomain(), sel.considered, at) && sel.considered != []
    ensures sel.confidence == if |sel.considered| >= quorumMin then Medium else Low
    ensures FirstFastest(sel.considered, sel.chosen)
    ensures LeastOf(sel.considered, NxdomainTtl(), m)
    ensures 1 <= sel.ttlS <= 30 && sel.ttlS == if m < 1 then 1 else if m > 30 then 30 else m
  {
    hide Filter, Usable, Leading, Overlapped, SomeOverlap, Quorate, Fastest, MinNegativeTtl, MinTtl;
    hide Picks, FirstFastest;
    at := PicksAlike(upstreams, IsNxdomain, SaysNxdomain());
    FirstOfFastest(sel.considered);
    m := LeastNegative(sel.considered);
  }

  lemma PicksAlike<T(!new)>(s: seq<T>, p: T -> bool, q: T -> bool) returns (at: seq<nat>)
    requires forall x :: p(x) == q(x)
    ensures Picks(s, q, Filter(s, p), at)
  {
    at := FilterPicks(s, p);
  }

  lemma LeastNegative(s: seq<Upstream>) returns (m: int)
    requires s != []
    ensures m == MinNegativeTtl(s) && LeastOf(s, NxdomainTtl(), m)
  {
    m := MinNegativeTtl(s);
    var u :| u in s && m == NegativeTtl(u);
  }

  // u has the least round-trip time of s, and is the first that has.
  ghost predicate FirstFastest(s: seq<Upstream>, u: Upstream) {
    exists k :: 0 <= k < |s| && s[k] == u && (forall j :: 0 <= j < |s| ==> u.rttMs <= s[j].rttMs)
                && forall j :: 0 <= j < k ==> u.rttMs < s[j].rttMs
  }

  lemma FirstOfFastest(s: seq<Upstream>)
    requires s != []
    ensures FirstFastest(s, Fastest(s))
  {
    hide Fastest;
    FastestIsMinimum(s);
    var k :| 0 <= k < |s| && Fastest(s) == s[k] && forall j :: 0 <= j < k ==> s[k].rttMs < s[j].rttMs;
    assert forall j :: 0 <= j < |s| ==> s[j] in s;
  }

  // An answer with addresses and this rrset hash.
  function Tells(h: string): Upstream -> bool {
    (u: Upstream) => u.status == NOERROR && u.ips != [] && u.rrsetHash == h
  }

  // The answers with one hash, as many as there are.
  ghost predicate Agreeing(upstreams: seq<Upstream>, c: seq<Upstream>, h: string, at: seq<nat>) {
    c != [] && Picks(upstreams, Tells(h), c, at)
  }

  ghost predicate SomeQuorum(upstreams: seq<Upstream>, quorumMin: int) {
    exists c, h, at :: Agreeing(upstreams, c, h, at) && |c| >= quorumMin
  }

  // Two different upstreams with addresses share one; with no positive threshold any two do.
  ghost predicate SomePair(upstreams: seq<Upstream>, threshold: real) {
    exists i, j :: 0 <= i < j < |upstreams| && Pair(upstreams[i], upstreams[j], threshold)
  }

  ghost predicate Pair(u: Upstream, v: Upstream, threshold: real) {
    && u.status == NOERROR && v.status == NOERROR && u.ips != [] && v.ips != []
    && (threshold <= 0.0 || exists ip :: ip in u.ips && ip in v.ips)
  }

  lemma {:induction false} ClassTells(upstreams: seq<Upstream>, h: string)
    ensures ClassOf(Usable(upstreams), h) == Filter(upstreams, Tells(h))
  {
    if upstreams != [] {
      var u, rest := upstreams[0], upstreams[1..];
      ClassTells(rest, h);
      assert upstreams == [u] + rest;
      FilterCons(u, rest, IsUsable);
      FilterCons(u, Usable(rest), HasHash(h));
      FilterCons(u, rest, Tells(h));
      assert Tells(h)(u) <==> IsUsable(u) && HasHash(h)(u);
      hide Filter, Tells, HasHash, IsUsable;
      assert [] + Usable(rest) == Usable(rest) && [] + Filter(rest, Tells(h)) == Filter(rest, Tells(h));
      assert [] + ClassOf(Usable(rest), h) == ClassOf(Usable(rest), h);
    }
  }

  lemma AgreeingIsClass(upstreams: seq<Upstream>, c: seq<Upstream>, h: string)
    ensures (exists at :: Agreeing(upstreams, c, h, at)) <==> c != [] && c == ClassOf(Usable(upstreams), h)
  {
    hide Filter, Usable, ClassOf, Picks;
    ClassTells(upstreams, h);
    if at :| Agreeing(upstreams, c, h, at) {
      PicksUnique(upstreams, Tells(h), c, at);
    }
    var at := FilterPicks(upstreams, Tells(h));
    if c != [] && c == ClassOf(Usable(upstreams), h) {
      assert Agreeing(upstreams, c, h, at);
    }
  }

  lemma QuorumIsQuorate(upstreams: seq<Upstream>, quorumMin: int)
    ensures SomeQuorum(upstreams, quorumMin) <==> Quorate(Usable(upstreams), quorumMin)
  {
    hide Usable, Filter, ClassOf, Agreeing;
    var s := Usable(upstreams);
    if SomeQuorum(upstreams, quorumMin) {
      var c, h, at :| Agreeing(upstreams, c, h, at) && |c| >= quorumMin;
      AgreeingIsClass(upstreams, c, h);
      ClassMember(s, h, c);
    }
    if Quorate(s, quorumMin) {
      var u :| u in s && |ClassOf(s, u.rrsetHash)| >= quorumMin;
      ClassNonEmpty(s, u);
      var c := ClassOf(s, u.rrsetHash);
      AgreeingIsClass(upstreams, c, u.rrsetHash);
      var at :| Agreeing(upstreams, c, u.rrsetHash, at);
    }
  }

  lemma ClassMember(s: seq<Upstream>, h: string, c: seq<Upstream>)
    requires c != [] && c == ClassOf(s, h)
    ensures c[0] in s && c[0].rrsetHash == h
  {
    assert c[0] in c;
  }

  lemma {:induction false} UsableAt(upstreams: seq<Upstream>) returns (at: seq<nat>)
    ensures Picks(upstreams, IsUsable, Usable(upstreams), at)
  {
    at := FilterPicks(upstreams, IsUsable);
  }

  lemma OverlapIsPair(u: Upstream, v: Upstream, threshold: real)
    requires IsUsable(u) && IsUsable(v)
    ensures Overlaps(u, v, threshold) <==> Pair(u, v, threshold)
  {
    RatioPositive(u.ips, v.ips);
  }

  lemma SomeOverlapIsPair(upstreams: seq<Upstream>, threshold: real)
    ensures SomePair(upstreams, threshold) <==> SomeOverlap(Usable(upstreams), threshold)
  {
    hide Filter, Usable, Overlaps, Pair;
    var s := Usable(upstreams);
    var at := UsableAt(upstreams);
    if SomeOverlap(s, threshold) {
      var i: nat, j: nat :| Overlapping(s, threshold, i, j);
      OverlapIsPair(s[i], s[j], threshold);
      assert Pair(upstreams[at[i]], upstreams[at[j]], threshold);
    }
    if SomePair(upstreams, threshold) {
      var i, j :| 0 <= i < j < |upstreams| && Pair(upstreams[i], upstreams[j], threshold);
      PairUsable(upstreams[i], upstreams[j], threshold);
      var p :| 0 <= p < |at| && at[p] == i;
      var q :| 0 <= q < |at| && at[q] == j;
      Increasing(at, p, q);
      OverlapIsPair(s[p], s[q], threshold);
      assert Overlapping(s, threshold, p, q);
    }
  }

  lemma PairUsable(u: Upstream, v: Upstream, threshold: real)
    requires Pair(u, v, threshold)
    ensures IsUsable(u) && IsUsable(v)
  {
  }

  lemma Increasing(at: seq<nat>, p: nat, q: nat)
    requires p < |at| && q < |at| && at[p] < at[q] && forall i, j :: 0 <= i < j < |at| ==> at[i] < at[j]
    ensures p < q
  {
  }

  // High if and only if enough upstreams agree on one hash; medium if and only if they do not and
  // two share an address; low otherwise.
  lemma ConfidenceExactly(upstreams: seq<Upstream>, quorumMin: int, overlapThreshold: real, ttlCapS: int,
                          sel: Selection)
    requires Selects(upstreams, quorumMin, overlapThreshold, ttlCapS, Ok(sel)) && sel.status == NOERROR
    ensures sel.confidence == High <==> SomeQuorum(upstreams, quorumMin)
    ensures sel.confidence == Medium <==> !SomeQuorum(upstreams, quorumMin) && SomePair(upstreams, overlapThreshold)
    ensures sel.confidence == Low <==> !SomeQuorum(upstreams, quorumMin) && !SomePair(upstreams, overlapThreshold)
  {
    hide Filter, Usable, Leading, Quorate, SomeOverlap, Overlapped, SomeQuorum, SomePair, Fastest, MinTtl;
    QuorumIsQuorate(upstreams, quorumMin);
    SomeOverlapIsPair(upstreams, overlapThreshold);
    FailsExactly(upstreams, quorumMin, overlapThreshold, ttlCapS, Ok(sel));
  }

  // High confidence considers a group of agreeing upstreams no other exceeds, and of several the
  // one whose first member came first.
  lemma HighConsiders(upstreams: seq<Upstream>, quorumMin: int, overlapThreshold: real, ttlCapS: int, sel: Selection)
    returns (h: string, at: seq<nat>)
    requires Selects(upstreams, quorumMin, overlapThreshold, ttlCapS, Ok(sel)) && sel.confidence == High
    ensures Agreeing(upstreams, sel.considered, h, at)
    ensures forall c, g, on :: Agreeing(upstreams, c, g, on) ==>
              |c| < |sel.considered| || (|c| == |sel.considered| && at[0] <= on[0])
  {
    hide Filter, Usable, ClassOf, FirstOf, Quorate, Overlapped, SomeOverlap, MinTtl, Fastest, MinNegativeTtl, Tells;
    var s := Usable(upstreams);
    var u :| LeadingFrom(s, sel.considered, u);
    h := u.rrsetHash;
    AgreeingIsClass(upstreams, sel.considered, h);
    at :| Agreeing(upstreams, sel.considered, h, at);
    forall c: seq<Upstream>, g: string, on: seq<nat> | Agreeing(upstreams, c, g, on)
      ensures |c| < |sel.considered| || (|c| == |sel.considered| && at[0] <= on[0])
    {
      AgreeingIsClass(upstreams, c, g);
      ClassMember(s, g, c);
      assert ClassOf(s, c[0].rrsetHash) == c;
      if |c| >= |sel.considered| {
        EarlierClass(upstreams, sel.considered, h, at, c, g, on);
      }
    }
  }

  // Where a group begins among the usable upstreams and among all of them.
  lemma EarlierClass(upstreams: seq<Upstream>, c: seq<Upstream>, h: string, at: seq<nat>,
                     d: seq<Upstream>, g: string, on: seq<nat>)
    requires Agreeing(upstreams, c, h, at) && Agreeing(upstreams, d, g, on)
    requires FirstOf(Usable(upstreams), h) <= FirstOf(Usable(upstreams), g)
    ensures at[0] <= on[0]
  {
    hide Filter, Usable, FirstIndex;
    var s := Usable(upstreams);
    var us := UsableAt(upstreams);
    BeginsAt(upstreams, c, h, at, us);
    BeginsAt(upstreams, d, g, on, us);
    var i, j := FirstOf(s, h), FirstOf(s, g);
    assert i < j ==> us[i] < us[j];
  }

  lemma BeginsAt(upstreams: seq<Upstream>, c: seq<Upstream>, h: string, at: seq<nat>, us: seq<nat>)
    requires Agreeing(upstreams, c, h, at) && Picks(upstreams, IsUsable, Usable(upstreams), us)
    ensures FirstOf(Usable(upstreams), h) < |us| && us[FirstOf(Usable(upstreams), h)] == at[0]
  {
    hide Filter, Usable, FirstIndex;
    var s := Usable(upstreams);
    assert Tells(h)(upstreams[at[0]]) && IsUsable(upstreams[at[0]]);
    var p :| 0 <= p < |us| && us[p] == at[0];
    forall q | 0 <= q < p ensures !HasHash(h)(s[q]) {
      assert us[q] < us[p] && s[q] == upstreams[us[q]];
      NotBefore(upstreams, h, c, at, us[q]);
    }
    FirstIndexIs(s, HasHash(h), p);
  }

  lemma NotBefore(upstreams: seq<Upstream>, h: string, c: seq<Upstream>, at: seq<nat>, k: nat)
    requires Agreeing(upstreams, c, h, at) && k < at[0] && k < |upstreams| && IsUsable(upstreams[k])
    ensures upstreams[k].rrsetHash != h
  {
    assert Tells(h)(upstreams[k]) ==> k in at;
  }

  function HasAddress(): Upstream -> bool {
    (u: Upstream) => u.status == NOERROR && u.ips != []
  }

  function OwnTtl(): Upstream -> int {
    (u: Upstream) => u.ttlS
  }

  // Every successful selection: the first of the fastest considered upstreams is chosen, and the
  // TTL is their least one, cut to the cap, to 120 for medium and to 30 for low confidence, and
  // at least 1.
  lemma ChoiceExactly(upstreams: seq<Upstream>, quorumMin: int, overlapThreshold: real, ttlCapS: int, sel: Selection)
    returns (m: int)
    requires Selects(upstreams, quorumMin, overlapThreshold, ttlCapS, Ok(sel)) && sel.status == NOERROR
    ensures FirstFastest(sel.considered, sel.chosen) && LeastOf(sel.considered, OwnTtl(), m)
    ensures var top := if sel.confidence == High then ttlCapS
                       else if sel.confidence == Medium then (if ttlCapS < 120 then ttlCapS else 120)
                       else if ttlCapS < 30 then ttlCapS else 30;
            sel.ttlS == if m < 1 || top < 1 then 1 else if m < top then m else top
  {
    hide Filter, Leading, Overlapped, SomeOverlap, Quorate, Fastest, MinNegativeTtl, MinTtl, FirstFastest;
    FirstOfFastest(sel.considered);
    m := LeastOwn(sel.considered);
  }

  lemma LeastOwn(s: seq<Upstream>) returns (m: int)
    requires s != []
    ensures m == MinTtl(s) && LeastOf(s, OwnTtl(), m)
    ensures |s| == 1 ==> m == s[0].ttlS
  {
    m := MinTtl(s);
    var u :| u in s && m == u.ttlS;
  }

  // Low confidence considers the chosen upstream alone, the first of the fastest with an address.
  lemma LowConsiders(upstreams: seq<Upstream>, quorumMin: int, overlapThreshold: real, ttlCapS: int, sel: Selection)
    returns (s: seq<Upstream>, at: seq<nat>)
    requires Selects(upstreams, quorumMin, overlapThreshold, ttlCapS, Ok(sel)) && sel.status == NOERROR
    requires sel.confidence == Low
    ensures Picks(upstreams, HasAddress(), s, at) && sel.considered == [sel.chosen] && FirstFastest(s, sel.chosen)
  {
    hide Filter, Leading, Overlapped, SomeOverlap, Quorate, Fastest, MinNegativeTtl, MinTtl, FirstFastest;
    s := Usable(upstreams);
    at := PicksAlike(upstreams, IsUsable, HasAddress());
    FirstOfFastest(s);
    FastestOfOne(Fastest(s));
  }

  // The pairs of s that share an address, in the order of the loops, and c their members.
  ghost predicate PairList(s: seq<Upstream>, threshold: real, pairs: seq<(nat, nat)>, c: seq<Upstream>) {
    && |c| == 2 * |pairs|
    && (forall k :: 0 <= k < |pairs| ==>
          var (p, q) := pairs[k];
          p < q < |s| && Pair(s[p], s[q], threshold) && c[2 * k] == s[p] && c[2 * k + 1] == s[q])
    && (forall k, l :: 0 <= k < l < |pairs| ==>
          pairs[k].0 < pairs[l].0 || (pairs[k].0 == pairs[l].0 && pairs[k].1 < pairs[l].1))
    && (forall p: nat, q: nat :: p < q < |s| && Pair(s[p], s[q], threshold) ==> (p, q) in pairs)
  }

  // The same while the inner loop has reached column j of row i.
  ghost predicate PairsUpTo(s: seq<Upstream>, threshold: real, i: nat, j: nat, pairs: seq<(nat, nat)>,
                            c: seq<Upstream>)
  {
    && |c| == 2 * |pairs|
    && (forall k :: 0 <= k < |pairs| ==>
          var (p, q) := pairs[k];
          Before(p, q, i, j) && p < q < |s| && Pair(s[p], s[q], threshold) && c[2 * k] == s[p] && c[2 * k + 1] == s[q])
    && (forall k, l :: 0 <= k < l < |pairs| ==> Before(pairs[k].0, pairs[k].1, pairs[l].0, pairs[l].1))
    && (forall p: nat, q: nat :: Before(p, q, i, j) && p < q < |s| && Pair(s[p], s[q], threshold) ==> (p, q) in pairs)
  }

  lemma PairPushed(s: seq<Upstream>, threshold: real, i: nat, j: nat, pairs: seq<(nat, nat)>, c: seq<Upstream>)
    requires i < j < |s| && PairsUpTo(s, threshold, i, j, pairs, c)
    ensures Pair(s[i], s[j], threshold) ==> PairsUpTo(s, threshold, i, j + 1, pairs + [(i, j)], c + [s[i], s[j]])
    ensures !Pair(s[i], s[j], threshold) ==> PairsUpTo(s, threshold, i, j + 1, pairs, c)
  {
    hide Pair;
  }

  lemma RowEnded(s: seq<Upstream>, threshold: real, i: nat, j: nat, i': nat, j': nat, pairs: seq<(nat, nat)>,
                 c: seq<Upstream>)
    requires PairsUpTo(s, threshold, i, j, pairs, c)
    requires forall p: nat, q: nat :: p < q < |s| ==> (Before(p, q, i, j) <==> Before(p, q, i', j'))
    ensures PairsUpTo(s, threshold, i', j', pairs, c)
  {
    hide Pair, Before;
    forall p: nat, q: nat | Before(p, q, i', j') && p < q < |s| && Pair(s[p], s[q], threshold) ensures (p, q) in pairs {
      assert Before(p, q, i, j);
    }
    forall k | 0 <= k < |pairs| ensures Before(pairs[k].0, pairs[k].1, i', j') {
      assert Before(pairs[k].0, pairs[k].1, i, j);
    }
  }

  lemma {:induction false} RowPairs(s: seq<Upstream>, threshold: real, i: nat, j: nat, before: seq<(nat, nat)>,
                                    c: seq<Upstream>)
    returns (pairs: seq<(nat, nat)>)
    requires (forall u :: u in s ==> IsUsable(u))
    requires i < j <= |s| && PairsUpTo(s, threshold, i, i + 1, before, c)
    ensures PairsUpTo(s, threshold, i, j, pairs, c + Row(s, threshold, i, j))
    decreases j
  {
    hide PairsUpTo, Overlaps, Pair;
    if j == i + 1 {
      pairs := before;
      assert c + [] == c;
    } else {
      var front := RowPairs(s, threshold, i, j - 1, before, c);
      OverlapIsPair(s[i], s[j - 1], threshold);
      PairPushed(s, threshold, i, j - 1, front, c + Row(s, threshold, i, j - 1));
      pairs := if Overlaps(s[i], s[j - 1], threshold) then front + [(i, j - 1)] else front;
      RowGrows(c, Row(s, threshold, i, j - 1), [s[i], s[j - 1]]);
    }
  }

  lemma RowGrows(c: seq<Upstream>, row: seq<Upstream>, last: seq<Upstream>)
    ensures c + (row + last) == c + row + last && c + (row + []) == c + row
  {
  }

  lemma {:induction false} RowsPairs(s: seq<Upstream>, threshold: real, i: nat) returns (pairs: seq<(nat, nat)>)
    requires (forall u :: u in s ==> IsUsable(u)) && i <= |s|
    ensures PairsUpTo(s, threshold, i, 0, pairs, Rows(s, threshold, i))
    decreases i
  {
    hide Pair, Row;
    if i == 0 {
      pairs := [];
    } else {
      var front := RowsPairs(s, threshold, i - 1);
      hide PairsUpTo;
      RowEnded(s, threshold, i - 1, 0, i - 1, i, front, Rows(s, threshold, i - 1));
      pairs := RowPairs(s, threshold, i - 1, |s|, front, Rows(s, threshold, i - 1));
      RowEnded(s, threshold, i - 1, |s|, i, 0, pairs, Rows(s, threshold, i));
    }
  }

  // Medium confidence considers the members of the pairs that share an address, one for each url.
  lemma MediumConsiders(upstreams: seq<Upstream>, quorumMin: int, overlapThreshold: real, ttlCapS: int, sel: Selection)
    returns (s: seq<Upstream>, at: seq<nat>, pairs: seq<(nat, nat)>, c: seq<Upstream>)
    requires Selects(upstreams, quorumMin, overlapThreshold, ttlCapS, Ok(sel)) && sel.status == NOERROR
    requires sel.confidence == Medium
    ensures Picks(upstreams, HasAddress(), s, at) && PairList(s, overlapThreshold, pairs, c)
    ensures OnePerUrl(sel.considered, c)
  {
    hide Filter, Leading, SomeOverlap, Quorate, Fastest, MinNegativeTtl, MinTtl, OnePerUrl, Rows, Pair, LastByUrl;
    s := Usable(upstreams);
    at := PicksAlike(upstreams, IsUsable, HasAddress());
    pairs := RowsPairs(s, overlapThreshold, |s|);
    c := Rows(s, overlapThreshold, |s|);
    LastByUrlMeans(c);
  }
}
