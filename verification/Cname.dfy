// gateway/src/adapters/recursive.ts: normalizeAndExtract, from a DNS-over-HTTPS answer to the
// chain, the addresses and the TTL of one upstream.
module Cname {
  import opened Sorting
  import opened Bytes
  import opened Quorum

  // One entry of the Answer section: kind is what mapType makes of the type, ttl is 0 when the
  // TTL is missing.
  datatype Raw = Raw(name: string, kind: string, data: string, ttl: int)

  // The code outside this model: normalizeHost, localeCompare, and hashHex.
  datatype Library = Library(norm: string -> string, collate: (string, string) -> bool, hash: string -> string)

  datatype Extract = Extract(status: Status, chain: seq<string>, answers: seq<DnsRecord>, ips: seq<string>,
                             ttlS: int, rrsetHash: string)

  const NX_TTL := 30
  const MAX_STEPS: nat := 10

  function ToRecord(lib: Library): Raw -> DnsRecord {
    (a: Raw) => DnsRecord(lib.norm(a.name), a.kind, a.data, Max(1, if a.ttl == 0 then 60 else a.ttl))
  }

  predicate Complete(r: DnsRecord) {
    r.name != "" && r.kind != "" && r.data != ""
  }

  function Records(raw: seq<Raw>, lib: Library): seq<DnsRecord> {
    Filter(Map(raw, ToRecord(lib)), Complete)
  }

  function IsAt(name: string, kind: string): DnsRecord -> bool {
    (r: DnsRecord) => r.name == name && r.kind == kind
  }

  function Named(name: string): DnsRecord -> bool {
    (r: DnsRecord) => r.name == name
  }

  // ---------- the CNAME walk ----------

  // The name the first CNAME record of a name leads to.
  function Target(recs: seq<DnsRecord>, name: string, lib: Library): Option<string> {
    var candidates := Filter(recs, IsAt(name, "CNAME"));
    if candidates == [] || lib.norm(candidates[0].data) == "" then None else Some(lib.norm(candidates[0].data))
  }

  function Walk(recs: seq<DnsRecord>, current: string, visited: set<string>, steps: nat, lib: Library): (r: seq<string>)
    ensures |r| <= steps
    decreases steps
  {
    if steps == 0 || current in visited then []
    else
      match Target(recs, current, lib)
      case None => []
      case Some(t) => [t] + Walk(recs, t, visited + {current}, steps - 1, lib)
  }

  function Last(first: string, chain: seq<string>): string {
    if chain == [] then first else chain[|chain| - 1]
  }

  // The names whose CNAME was followed.
  function Owners(first: string, chain: seq<string>): (r: seq<string>)
    ensures |r| == |chain|
  {
    if chain == [] then [] else [first] + chain[..|chain| - 1]
  }

  // Each name of the chain is the target of the one before it, and no owner comes twice.
  ghost predicate FollowsEdges(recs: seq<DnsRecord>, first: string, chain: seq<string>, lib: Library) {
    var owners := Owners(first, chain);
    && (forall i :: 0 <= i < |chain| ==> Target(recs, owners[i], lib) == Some(chain[i]))
    && (forall i, j :: 0 <= i < j < |owners| ==> owners[i] != owners[j])
  }

  lemma {:induction false} WalkFollowsEdges(recs: seq<DnsRecord>, current: string, visited: set<string>,
                                            steps: nat, lib: Library)
    ensures var chain := Walk(recs, current, visited, steps, lib);
            var owners := Owners(current, chain);
            FollowsEdges(recs, current, chain, lib) && (forall i :: 0 <= i < |owners| ==> owners[i] !in visited)
    decreases steps
  {
    hide Target;
    var chain := Walk(recs, current, visited, steps, lib);
    if chain != [] {
      WalkFollowsEdges(recs, chain[0], visited + {current}, steps - 1, lib);
      var rest := chain[1..];
      assert rest == Walk(recs, chain[0], visited + {current}, steps - 1, lib);
      var inner, owners := Owners(chain[0], rest), Owners(current, chain);
      OwnersCons(current, chain);
      forall i | 0 <= i < |chain| ensures Target(recs, owners[i], lib) == Some(chain[i]) && owners[i] !in visited {
        assert i > 0 ==> owners[i] == inner[i - 1] && chain[i] == rest[i - 1];
      }
      forall i, j | 0 <= i < j < |owners| ensures owners[i] != owners[j] {
        assert owners[j] == inner[j - 1] && (i > 0 ==> owners[i] == inner[i - 1]);
      }
    }
  }

  lemma OwnersCons(first: string, chain: seq<string>)
    requires chain != []
    ensures Owners(first, chain) == [first] + Owners(chain[0], chain[1..])
  {
    if |chain| > 1 {
      assert chain[..|chain| - 1] == [chain[0]] + chain[1..][..|chain| - 2];
    }
  }

  // ---------- the result ----------

  function Dedup(s: seq<string>): (r: seq<string>)
    ensures forall x :: x in r <==> x in s
    ensures forall i, j :: 0 <= i < j < |r| ==> r[i] != r[j]
  {
    if s == [] then []
    else
      var front, last := Dedup(s[..|s| - 1]), s[|s| - 1];
      assert s == s[..|s| - 1] + [last];
      if last in front then front else front + [last]
  }

  function DataOf(r: DnsRecord): string { r.data }

  function Ips(usable: seq<DnsRecord>, lib: Library): seq<string> {
    Sort(Dedup(Map(usable, DataOf)), lib.collate)
  }

  function MinRecordTtl(s: seq<DnsRecord>): (r: int)
    requires s != []
    ensures forall x :: x in s ==> r <= x.ttl
    ensures exists x :: x in s && r == x.ttl
  {
    if |s| == 1 then s[0].ttl
    else
      assert s == [s[0]] + s[1..];
      Min(s[0].ttl, MinRecordTtl(s[1..]))
  }

  function MinTtlOr60(s: seq<DnsRecord>): int {
    if s == [] then 60 else Max(1, MinRecordTtl(s))
  }

  function JoinComma(s: seq<string>): string {
    if s == [] then "" else if |s| == 1 then s[0] else s[0] + "," + JoinComma(s[1..])
  }

  function UsableAt(recs: seq<DnsRecord>, final: string, first: string, qtype: string): seq<DnsRecord> {
    var finalAnswers := Filter(recs, IsAt(final, qtype));
    if finalAnswers != [] then finalAnswers else Filter(recs, IsAt(first, qtype))
  }

  function Answered(recs: seq<DnsRecord>, qname: string, qtype: string, lib: Library): Extract {
    var first := lib.norm(qname);
    var chain := Walk(recs, first, {}, MAX_STEPS, lib);
    var usable := UsableAt(recs, Last(first, chain), first, qtype);
    var ips := Ips(usable, lib);
    Extract(NOERROR, chain, usable, ips, MinTtlOr60(usable),
            lib.hash(qtype + "|" + Last(first, chain) + "|" + JoinComma(ips)))
  }

  function Extracted(statusCode: int, raw: seq<Raw>, qname: string, qtype: string, lib: Library): Extract {
    if statusCode == 3 then
      Extract(NXDOMAIN, [], [], [], NX_TTL, lib.hash(qtype + "|" + lib.norm(qname) + "|NXDOMAIN"))
    else if statusCode != 0 then
      Extract(ERROR, [], [], [], 1, lib.hash(qtype + "|" + lib.norm(qname) + "|ERROR"))
    else Answered(Records(raw, lib), qname, qtype, lib)
  }

  // byName holds, for each name, the records of that name in order.
  ghost predicate Indexed(byName: map<string, seq<DnsRecord>>, recs: seq<DnsRecord>) {
    forall n :: (if n in byName then byName[n] else []) == Filter(recs, Named(n))
  }

  lemma NoneNamed(s: seq<DnsRecord>)
    requires s == []
    ensures forall n :: Filter(s, Named(n)) == []
  {
  }

  lemma NamedPush(s: seq<DnsRecord>, r: DnsRecord)
    ensures forall n :: Filter(s + [r], Named(n)) == Filter(s, Named(n)) + (if r.name == n then [r] else [])
  {
    forall n ensures Filter(s + [r], Named(n)) == Filter(s, Named(n)) + (if r.name == n then [r] else []) {
      FilterPush(s, r, Named(n));
    }
  }

  method BucketByName(recs: seq<DnsRecord>) returns (byName: map<string, seq<DnsRecord>>)
    ensures Indexed(byName, recs)
  {
    hide Filter;
    assert forall n :: Filter(recs[..0], Named(n)) == [] by { NoneNamed(recs[..0]); }
    byName := map[];
    for k := 0 to |recs|
      invariant Indexed(byName, recs[..k])
    {
      var r := recs[k];
      var bucket := if r.name in byName then byName[r.name] else [];
      assert recs[..k + 1] == recs[..k] + [r];
      NamedPush(recs[..k], r);
      byName := byName[r.name := bucket + [r]];
    }
    assert recs[..|recs|] == recs;
  }

  lemma {:induction false} FilterTwice(s: seq<DnsRecord>, name: string, kind: string)
    ensures Filter(Filter(s, Named(name)), (r: DnsRecord) => r.kind == kind) == Filter(s, IsAt(name, kind))
  {
    if s != [] {
      var k := (r: DnsRecord) => r.kind == kind;
      var rest := Filter(s[1..], Named(name));
      FilterTwice(s[1..], name, kind);
      FilterCons(s[0], rest, k);
      assert s == [s[0]] + s[1..];
      FilterCons(s[0], s[1..], Named(name));
      FilterCons(s[0], s[1..], IsAt(name, kind));
      hide Filter;
      assert [] + rest == rest;
      assert [] + Filter(s[1..], IsAt(name, kind)) == Filter(s[1..], IsAt(name, kind));
    }
  }

  method NormalizeAndExtract(statusCode: int, raw: seq<Raw>, qname: string, qtype: string, lib: Library)
    returns (e: Extract)
    ensures e == Extracted(statusCode, raw, qname, qtype, lib)
  {
    hide Filter;
    hide Ips;
    hide MinTtlOr60;
    hide Indexed;
    hide Walk;
    hide Records;
    hide JoinComma;
    var recs := Records(raw, lib);
    if statusCode == 3 {
      return Extract(NXDOMAIN, [], [], [], NX_TTL, lib.hash(qtype + "|" + lib.norm(qname) + "|NXDOMAIN"));
    }
    if statusCode != 0 {
      return Extract(ERROR, [], [], [], 1, lib.hash(qtype + "|" + lib.norm(qname) + "|ERROR"));
    }
    var byName := BucketByName(recs);
    var first := lib.norm(qname);
    var current, chain := FollowCnames(byName, recs, first, lib);
    var finalAnswers := LookUp(byName, recs, current, qtype);
    var fallbackAnswers := Filter(recs, IsAt(first, qtype));
    var usable := if |finalAnswers| > 0 then finalAnswers else fallbackAnswers;
    var ips := Ips(usable, lib);
    return Extract(NOERROR, chain, usable, ips, MinTtlOr60(usable),
                   lib.hash(qtype + "|" + current + "|" + JoinComma(ips)));
  }

  lemma WalkHead(recs: seq<DnsRecord>, current: string, visited: set<string>, steps: nat, lib: Library)
    requires steps > 0 && current !in visited
    ensures var w := Walk(recs, current, visited, steps, lib);
            match Target(recs, current, lib)
            case None => w == []
            case Some(t) => w != [] && w[0] == t && w[1..] == Walk(recs, t, visited + {current}, steps - 1, lib)
  {
    hide Target;
  }

  // The loop over at most ten CNAME records.
  method FollowCnames(byName: map<string, seq<DnsRecord>>, ghost recs: seq<DnsRecord>, first: string, lib: Library)
    returns (current: string, chain: seq<string>)
    requires Indexed(byName, recs)
    ensures chain == Walk(recs, first, {}, MAX_STEPS, lib) && current == Last(first, chain)
  {
    hide Filter;
    hide Indexed;
    hide Walk;
    current := first;
    chain := [];
    var visited: set<string> := {};
    ghost var whole := Walk(recs, first, {}, MAX_STEPS, lib);
    assert [] + whole == whole;
    var i: nat := 0;
    while i < MAX_STEPS
      invariant i <= MAX_STEPS && current == Last(first, chain)
      invariant whole == chain + Walk(recs, current, visited, MAX_STEPS - i, lib)
      decreases MAX_STEPS - i
    {
      if current in visited {
        break;
      }
      WalkHead(recs, current, visited, MAX_STEPS - i, lib);
      ghost var rest := Walk(recs, current, visited, MAX_STEPS - i, lib);
      var candidates := LookUp(byName, recs, current, "CNAME");
      visited := visited + {current};
      WalkEnds(recs, current, visited, MAX_STEPS - i, lib);
      if |candidates| == 0 {
        break;
      }
      var target := lib.norm(candidates[0].data);
      if target == "" {
        break;
      }
      ConsAgain(chain, rest);
      chain := chain + [target];
      current := target;
      i := i + 1;
    }
    WalkEnds(recs, current, visited, MAX_STEPS - i, lib);
    assert chain + [] == chain;
  }

  lemma ConsAgain(chain: seq<string>, rest: seq<string>)
    requires rest != []
    ensures chain + rest == (chain + [rest[0]]) + rest[1..]
  {
  }

  lemma WalkEnds(recs: seq<DnsRecord>, current: string, visited: set<string>, steps: nat, lib: Library)
    ensures steps == 0 || current in visited ==> Walk(recs, current, visited, steps, lib) == []
  {
  }

  // (byName.get(name) || []).filter((r) => r.type === kind)
  method LookUp(byName: map<string, seq<DnsRecord>>, ghost recs: seq<DnsRecord>, name: string, kind: string)
    returns (r: seq<DnsRecord>)
    requires Indexed(byName, recs)
    ensures r == Filter(recs, IsAt(name, kind))
  {
    FilterTwice(recs, name, kind);
    r := Filter(if name in byName then byName[name] else [], (x: DnsRecord) => x.kind == kind);
  }

  // The walk follows CNAME edges, at most ten, and expands no owner name twice; every answer has
  // the queried type and sits at the final or at the original name; the TTL is a positive lower
  // bound of the answers' TTLs.
  lemma ExtractionSound(raw: seq<Raw>, qname: string, qtype: string, lib: Library, e: Extract)
    requires e == Extracted(0, raw, qname, qtype, lib)
    ensures |e.chain| <= MAX_STEPS
    ensures FollowsEdges(Records(raw, lib), lib.norm(qname), e.chain, lib)
    ensures forall a :: a in e.answers ==> a in Records(raw, lib) && a.kind == qtype
                                           && (a.name == Last(lib.norm(qname), e.chain) || a.name == lib.norm(qname))
    ensures forall ip :: ip in e.ips <==> exists a :: a in e.answers && a.data == ip
    ensures e.ttlS >= 1 && forall a :: a in e.answers ==> e.ttlS <= a.ttl
  {
    hide Filter;
    hide UsableAt;
    hide Ips;
    hide Last;
    var recs, first := Records(raw, lib), lib.norm(qname);
    hide FollowsEdges;
    WalkFollowsEdges(recs, first, {}, MAX_STEPS, lib);
    RecordTtls(raw, lib);
    UsableSound(recs, Last(first, e.chain), first, qtype);
    IpsAreData(e.answers, lib);
    TtlBounds(e.answers);
  }

  // What queryOneUpstream returns: the extraction with the url and the time it took, or a failure
  // with a TTL of 1.
  function AsUpstream(url: string, rttMs: int, e: Option<Extract>, hash: string): Upstream {
    match e
    case Some(x) => Upstream(url, rttMs, x.status, x.answers, x.ips, x.ttlS, x.rrsetHash)
    case None => Upstream(url, rttMs, ERROR, [], [], 1, hash)
  }

  // Every upstream has a positive TTL, as the classification of answers takes for granted.
  lemma UpstreamTtlPositive(raw: seq<Raw>, statusCode: int, qname: string, qtype: string, lib: Library,
                            url: string, rttMs: int, hash: string)
    ensures Extracted(statusCode, raw, qname, qtype, lib).ttlS >= 1
    ensures TtlsPositive([AsUpstream(url, rttMs, Some(Extracted(statusCode, raw, qname, qtype, lib)), hash),
                          AsUpstream(url, rttMs, None, hash)])
  {
    hide Walk, UsableAt, Ips, JoinComma, Records, MinRecordTtl;
  }

  lemma TtlBounds(s: seq<DnsRecord>)
    requires forall r :: r in s ==> r.ttl >= 1
    ensures MinTtlOr60(s) >= 1 && forall r :: r in s ==> MinTtlOr60(s) <= r.ttl
  {
  }

  lemma UsableSound(recs: seq<DnsRecord>, final: string, first: string, qtype: string)
    ensures forall a :: a in UsableAt(recs, final, first, qtype)
              ==> a in recs && a.kind == qtype && (a.name == final || a.name == first)
  {
  }

  lemma RecordTtls(raw: seq<Raw>, lib: Library)
    ensures forall r :: r in Records(raw, lib) ==> r.ttl >= 1
  {
    var all := Map(raw, ToRecord(lib));
    forall r | r in all ensures r.ttl >= 1 {
      var i :| 0 <= i < |all| && all[i] == r;
      TtlOf(raw[i], lib);
    }
  }

  lemma TtlOf(a: Raw, lib: Library)
    ensures ToRecord(lib)(a).ttl == if a.ttl == 0 then 60 else if a.ttl < 1 then 1 else a.ttl
  {
  }

  lemma IpsAreData(usable: seq<DnsRecord>, lib: Library)
    ensures forall ip :: ip in Ips(usable, lib) <==> exists a :: a in usable && a.data == ip
  {
    var data := Map(usable, DataOf);
    MembersOf(Sort(Dedup(data), lib.collate), Dedup(data));
    forall ip ensures ip in data <==> exists a :: a in usable && a.data == ip {
      if ip in data {
        var i :| 0 <= i < |data| && data[i] == ip;
        assert usable[i] in usable && usable[i].data == ip;
      }
      if exists a :: a in usable && a.data == ip {
        var a :| a in usable && a.data == ip;
        var i :| 0 <= i < |usable| && usable[i] == a;
        assert data[i] == ip;
      }
    }
  }

  // ---------- independence of the answer order ----------

  // The CNAME records of one name all lead to one name.
  ghost predicate OneTargetAt(recs: seq<DnsRecord>, name: string, lib: Library) {
    forall a, b :: a in recs && b in recs && IsAt(name, "CNAME")(a) && IsAt(name, "CNAME")(b) ==>
      lib.norm(a.data) == lib.norm(b.data)
  }

  // So it is at every name the walk looks up.
  ghost predicate NoForkOnWalk(recs: seq<DnsRecord>, current: string, visited: set<string>, steps: nat, lib: Library)
    decreases steps
  {
    steps > 0 && current !in visited ==>
      && OneTargetAt(recs, current, lib)
      && match Target(recs, current, lib)
         case None => true
         case Some(t) => NoForkOnWalk(recs, t, visited + {current}, steps - 1, lib)
  }

  ghost predicate StrictCollation(lib: Library) {
    TotalPreorder(lib.collate) && forall a, b :: Tied(a, b, lib.collate) ==> a == b
  }

  lemma {:induction false} FilterCounts<T>(s: seq<T>, p: T -> bool, x: T)
    ensures multiset(Filter(s, p))[x] == if p(x) then multiset(s)[x] else 0
  {
    if s != [] {
      FilterCounts(s[1..], p, x);
      assert s == [s[0]] + s[1..];
      var rest := Filter(s[1..], p);
      assert multiset([s[0]] + rest) == multiset{s[0]} + multiset(rest);
      assert [] + rest == rest;
    }
  }

  lemma FilterPermutes<T(!new)>(s: seq<T>, t: seq<T>, p: T -> bool)
    requires multiset(s) == multiset(t)
    ensures multiset(Filter(s, p)) == multiset(Filter(t, p))
    ensures |Filter(s, p)| == |Filter(t, p)|
  {
    var a, b := Filter(s, p), Filter(t, p);
    forall x ensures multiset(a)[x] == multiset(b)[x] {
      FilterCounts(s, p, x);
      FilterCounts(t, p, x);
    }
    SameCounts(multiset(a), multiset(b));
    MembersOf(a, b);
  }

  lemma SameCounts<T(!new)>(a: multiset<T>, b: multiset<T>)
    requires forall x :: a[x] == b[x]
    ensures a == b
  {
  }

  lemma TargetPermutes(s: seq<DnsRecord>, t: seq<DnsRecord>, name: string, lib: Library)
    requires multiset(s) == multiset(t) && OneTargetAt(s, name, lib)
    ensures Target(s, name, lib) == Target(t, name, lib)
  {
    var p := IsAt(name, "CNAME");
    var a, b := Filter(s, p), Filter(t, p);
    FilterPermutes(s, t, p);
    MembersOf(s, t);
    if a != [] {
      assert a[0] in a && b[0] in b;
    }
  }

  lemma {:induction false} WalkPermutes(s: seq<DnsRecord>, t: seq<DnsRecord>, current: string, visited: set<string>,
                                        steps: nat, lib: Library)
    requires multiset(s) == multiset(t) && NoForkOnWalk(s, current, visited, steps, lib)
    ensures Walk(s, current, visited, steps, lib) == Walk(t, current, visited, steps, lib)
    decreases steps
  {
    if steps > 0 && current !in visited {
      hide Target;
      hide OneTargetAt;
      TargetPermutes(s, t, current, lib);
      if Target(s, current, lib).Some? {
        WalkPermutes(s, t, Target(s, current, lib).value, visited + {current}, steps - 1, lib);
      }
    }
  }

  lemma {:induction false} DedupCounts(s: seq<string>, x: string)
    requires forall i, j :: 0 <= i < j < |s| ==> s[i] != s[j]
    ensures multiset(s)[x] == if x in s then 1 else 0
  {
    if s != [] {
      assert s == [s[0]] + s[1..];
      DedupCounts(s[1..], x);
    }
  }

  lemma IpsPermute(s: seq<DnsRecord>, t: seq<DnsRecord>, lib: Library)
    requires multiset(s) == multiset(t) && StrictCollation(lib)
    ensures Ips(s, lib) == Ips(t, lib)
  {
    MembersOf(s, t);
    var a, b := Dedup(Map(s, DataOf)), Dedup(Map(t, DataOf));
    SameData(s, t);
    SameData(t, s);
    forall x ensures multiset(a)[x] == multiset(b)[x] {
      DedupCounts(a, x);
      DedupCounts(b, x);
    }
    assert multiset(a) == multiset(b);
    SortSorted(a, lib.collate);
    SortSorted(b, lib.collate);
    SortedAgree(Sort(a, lib.collate), Sort(b, lib.collate), lib.collate);
  }

  lemma SameData(s: seq<DnsRecord>, t: seq<DnsRecord>)
    requires forall r :: r in s ==> r in t
    ensures forall x :: x in Map(s, DataOf) ==> x in Map(t, DataOf)
  {
    forall x | x in Map(s, DataOf) ensures x in Map(t, DataOf) {
      var i :| 0 <= i < |s| && Map(s, DataOf)[i] == x;
      assert s[i] in t;
      var j :| 0 <= j < |t| && t[j] == s[i];
      assert Map(t, DataOf)[j] == x;
    }
  }

  lemma TtlPermutes(s: seq<DnsRecord>, t: seq<DnsRecord>)
    requires multiset(s) == multiset(t)
    ensures MinTtlOr60(s) == MinTtlOr60(t)
  {
    MembersOf(s, t);
  }

  lemma UsablePermutes(s: seq<DnsRecord>, t: seq<DnsRecord>, final: string, first: string, qtype: string)
    requires multiset(s) == multiset(t)
    ensures multiset(UsableAt(s, final, first, qtype)) == multiset(UsableAt(t, final, first, qtype))
  {
    FilterPermutes(s, t, IsAt(final, qtype));
    FilterPermutes(s, t, IsAt(first, qtype));
  }

  lemma AnsweredPermutes(s: seq<DnsRecord>, t: seq<DnsRecord>, qname: string, qtype: string, lib: Library)
    requires multiset(s) == multiset(t) && StrictCollation(lib)
    requires NoForkOnWalk(s, lib.norm(qname), {}, MAX_STEPS, lib)
    ensures var x, y := Answered(s, qname, qtype, lib), Answered(t, qname, qtype, lib);
            x == y.(answers := x.answers) && multiset(x.answers) == multiset(y.answers)
  {
    hide Walk;
    hide UsableAt;
    hide Ips;
    hide MinTtlOr60;
    hide NoForkOnWalk;
    hide StrictCollation;
    hide JoinComma;
    var first := lib.norm(qname);
    WalkPermutes(s, t, first, {}, MAX_STEPS, lib);
    var final := Last(first, Walk(s, first, {}, MAX_STEPS, lib));
    UsablePermutes(s, t, final, first, qtype);
    var a, b := UsableAt(s, final, first, qtype), UsableAt(t, final, first, qtype);
    IpsPermute(a, b, lib);
    TtlPermutes(a, b);
  }

  lemma MapConcat<T, U>(s: seq<T>, t: seq<T>, f: T -> U)
    ensures Map(s + t, f) == Map(s, f) + Map(t, f)
  {
  }

  lemma {:induction false} MapPermutes<T(!new), U>(s: seq<T>, t: seq<T>, f: T -> U)
    requires multiset(s) == multiset(t)
    ensures multiset(Map(s, f)) == multiset(Map(t, f))
  {
    MembersOf(s, t);
    if s != [] {
      hide Map;
      var k := FindEqual(s, t);
      var r := t[..k] + t[k + 1..];
      MapPermutes(s[1..], r, f);
      assert s == [s[0]] + s[1..];
      assert t == t[..k] + ([s[0]] + t[k + 1..]);
      MapConcat([s[0]], s[1..], f);
      MapConcat(t[..k], [s[0]] + t[k + 1..], f);
      MapConcat([s[0]], t[k + 1..], f);
      MapConcat(t[..k], t[k + 1..], f);
    }
  }

  // Up to the order of the answers.
  predicate SameOutcome(x: Extract, y: Extract) {
    && x.status == y.status && x.chain == y.chain && x.ips == y.ips && x.ttlS == y.ttlS && x.rrsetHash == y.rrsetHash
    && multiset(x.answers) == multiset(y.answers)
  }

  ghost predicate OrderIndependent(raw: seq<Raw>, statusCode: int, qname: string, qtype: string, lib: Library) {
    forall perm :: multiset(perm) == multiset(raw) ==>
      SameOutcome(Extracted(statusCode, raw, qname, qtype, lib), Extracted(statusCode, perm, qname, qtype, lib))
  }

  lemma RecordsPermute(raw: seq<Raw>, perm: seq<Raw>, lib: Library)
    requires multiset(perm) == multiset(raw)
    ensures multiset(Records(raw, lib)) == multiset(Records(perm, lib))
  {
    MapPermutes(raw, perm, ToRecord(lib));
    FilterPermutes(Map(raw, ToRecord(lib)), Map(perm, ToRecord(lib)), Complete);
  }

  lemma RecordsHead(raw: Raw, rest: seq<Raw>, lib: Library)
    requires Complete(ToRecord(lib)(raw))
    ensures Records([raw] + rest, lib) == [ToRecord(lib)(raw)] + Records(rest, lib)
  {
    MapConcat([raw], rest, ToRecord(lib));
    assert Map([raw], ToRecord(lib)) == [ToRecord(lib)(raw)];
    FilterCons(ToRecord(lib)(raw), Map(rest, ToRecord(lib)), Complete);
  }

  lemma RecordComesFrom(raw: seq<Raw>, lib: Library, r: DnsRecord) returns (a: Raw)
    requires r in Records(raw, lib)
    ensures a in raw && ToRecord(lib)(a) == r && Complete(r)
  {
    var i :| 0 <= i < |raw| && Map(raw, ToRecord(lib))[i] == r;
    a := raw[i];
  }

  lemma FrontDecides(x: DnsRecord, rest: seq<DnsRecord>, name: string, lib: Library)
    requires IsAt(name, "CNAME")(x)
    ensures Target([x] + rest, name, lib) == if lib.norm(x.data) == "" then None else Some(lib.norm(x.data))
  {
    FilterCons(x, rest, IsAt(name, "CNAME"));
  }

  lemma FirstMatch(recs: seq<DnsRecord>, name: string)
    requires exists r :: r in recs && IsAt(name, "CNAME")(r)
    ensures var c := Filter(recs, IsAt(name, "CNAME")); c != [] && c[0] in recs && IsAt(name, "CNAME")(c[0])
  {
    var r :| r in recs && IsAt(name, "CNAME")(r);
    FilterCounts(recs, IsAt(name, "CNAME"), r);
    var c := Filter(recs, IsAt(name, "CNAME"));
    assert multiset(recs)[r] > 0;
    assert r in multiset(c);
    assert c[0] in c;
  }

  // Where records of one name disagree, moving one that is not followed to the front changes
  // where the name leads.
  lemma ForkMoves(raw: seq<Raw>, name: string, lib: Library) returns (perm: seq<Raw>)
    requires !OneTargetAt(Records(raw, lib), name, lib)
    ensures multiset(perm) == multiset(raw)
    ensures Target(Records(perm, lib), name, lib) != Target(Records(raw, lib), name, lib)
  {
    hide Records, Filter;
    var recs := Records(raw, lib);
    var a, b :| a in recs && b in recs && IsAt(name, "CNAME")(a) && IsAt(name, "CNAME")(b)
                && lib.norm(a.data) != lib.norm(b.data);
    FirstMatch(recs, name);
    var followed := Filter(recs, IsAt(name, "CNAME"))[0];
    perm := ToFront(raw, lib, name, if lib.norm(a.data) != lib.norm(followed.data) then a else b);
  }

  lemma ToFront(raw: seq<Raw>, lib: Library, name: string, x: DnsRecord) returns (perm: seq<Raw>)
    requires x in Records(raw, lib) && IsAt(name, "CNAME")(x)
    ensures multiset(perm) == multiset(raw)
    ensures Target(Records(perm, lib), name, lib) == if lib.norm(x.data) == "" then None else Some(lib.norm(x.data))
  {
    hide Target, Filter, Map;
    var from := RecordComesFrom(raw, lib, x);
    var rest := Sorting.Extract(raw, from);
    perm := [from] + rest;
    assert multiset(perm) == multiset{from} + multiset(rest);
    RecordsHead(from, rest, lib);
    FrontDecides(x, Records(rest, lib), name, lib);
  }

  lemma {:induction false} ForkOnWalkShows(raw: seq<Raw>, current: string, visited: set<string>,
                                           steps: nat, lib: Library)
    returns (perm: seq<Raw>)
    requires !NoForkOnWalk(Records(raw, lib), current, visited, steps, lib)
    ensures multiset(perm) == multiset(raw)
    ensures Walk(Records(perm, lib), current, visited, steps, lib)
         != Walk(Records(raw, lib), current, visited, steps, lib)
    decreases steps
  {
    hide Target, OneTargetAt, Records;
    var recs := Records(raw, lib);
    if !OneTargetAt(recs, current, lib) {
      perm := ForkMoves(raw, current, lib);
      WalkHead(recs, current, visited, steps, lib);
      WalkHead(Records(perm, lib), current, visited, steps, lib);
    } else {
      var t := Target(recs, current, lib).value;
      perm := ForkOnWalkShows(raw, t, visited + {current}, steps - 1, lib);
      RecordsPermute(raw, perm, lib);
      TargetPermutes(recs, Records(perm, lib), current, lib);
      WalkHead(recs, current, visited, steps, lib);
      WalkHead(Records(perm, lib), current, visited, steps, lib);
    }
  }

  // For a successful answer, permuting the Answer section changes nothing but the order of the
  // answers exactly when no name on the walk has CNAME records that disagree; in particular
  // when every name has at most one.
  lemma OrderIndependentExactly(raw: seq<Raw>, qname: string, qtype: string, lib: Library)
    requires StrictCollation(lib)
    ensures OrderIndependent(raw, 0, qname, qtype, lib) <==>
              NoForkOnWalk(Records(raw, lib), lib.norm(qname), {}, MAX_STEPS, lib)
  {
    hide Answered, NoForkOnWalk, Records, StrictCollation;
    if NoForkOnWalk(Records(raw, lib), lib.norm(qname), {}, MAX_STEPS, lib) {
      forall perm | multiset(perm) == multiset(raw)
        ensures SameOutcome(Extracted(0, raw, qname, qtype, lib), Extracted(0, perm, qname, qtype, lib))
      {
        RecordsPermute(raw, perm, lib);
        AnsweredPermutes(Records(raw, lib), Records(perm, lib), qname, qtype, lib);
      }
    } else {
      var perm := ForkOnWalkShows(raw, lib.norm(qname), {}, MAX_STEPS, lib);
      ChainIsWalk(raw, qname, qtype, lib);
      ChainIsWalk(perm, qname, qtype, lib);
      assert !SameOutcome(Extracted(0, raw, qname, qtype, lib), Extracted(0, perm, qname, qtype, lib));
    }
  }

  lemma ChainIsWalk(raw: seq<Raw>, qname: string, qtype: string, lib: Library)
    ensures Extracted(0, raw, qname, qtype, lib).chain == Walk(Records(raw, lib), lib.norm(qname), {}, MAX_STEPS, lib)
  {
  }

  // At most one CNAME record a name is enough.
  lemma {:induction false} SingleCnamesDoNotFork(recs: seq<DnsRecord>, current: string, visited: set<string>,
                                                 steps: nat, lib: Library)
    requires forall a, b :: a in recs && b in recs && a.kind == "CNAME" && b.kind == "CNAME" && a.name == b.name ==>
               a == b
    ensures NoForkOnWalk(recs, current, visited, steps, lib)
    decreases steps
  {
    hide Target;
    if steps > 0 && current !in visited && Target(recs, current, lib).Some? {
      SingleCnamesDoNotFork(recs, Target(recs, current, lib).value, visited + {current}, steps - 1, lib);
    }
  }

  // ---------- what the extraction means, on the Answer section itself ----------

  // a is a complete record of this type at this name.
  function StandsAt(name: string, kind: string, lib: Library): Raw -> bool {
    (a: Raw) => lib.norm(a.name) == name && a.kind == kind && name != "" && kind != "" && a.data != ""
  }

  // answers are the records of this type at this name, all of them and in their order.
  ghost predicate Tells(raw: seq<Raw>, name: string, kind: string, answers: seq<DnsRecord>, lib: Library) {
    exists rs: seq<Raw>, at: seq<nat> ::
      && Picks(raw, StandsAt(name, kind, lib), rs, at) && |answers| == |rs|
      && forall i :: 0 <= i < |rs| ==>
           && answers[i].name == name && answers[i].kind == kind && answers[i].data == rs[i].data
           && answers[i].ttl == if rs[i].ttl == 0 then 60 else if rs[i].ttl < 1 then 1 else rs[i].ttl
  }

  lemma {:induction false} RecordsAtAreRaw(raw: seq<Raw>, name: string, kind: string, lib: Library)
    ensures Filter(Records(raw, lib), IsAt(name, kind)) == Map(Filter(raw, StandsAt(name, kind, lib)), ToRecord(lib))
  {
    if raw != [] {
      var a, rest := raw[0], raw[1..];
      var f, p := ToRecord(lib), StandsAt(name, kind, lib);
      RecordsAtAreRaw(rest, name, kind, lib);
      assert raw == [a] + rest;
      MapCons(a, rest, f);
      FilterCons(f(a), Map(rest, f), Complete);
      FilterCons(f(a), Records(rest, lib), IsAt(name, kind));
      FilterCons(a, rest, p);
      MapCons(a, Filter(rest, p), f);
      assert p(a) <==> Complete(f(a)) && IsAt(name, kind)(f(a));
      hide Filter, Map, StandsAt, IsAt, Complete, ToRecord;
      assert [] + Records(rest, lib) == Records(rest, lib);
      assert [] + Filter(rest, p) == Filter(rest, p);
      assert [] + Filter(Records(rest, lib), IsAt(name, kind)) == Filter(Records(rest, lib), IsAt(name, kind));
    }
  }

  lemma RecordsTold(raw: seq<Raw>, name: string, kind: string, lib: Library)
    ensures Tells(raw, name, kind, Filter(Records(raw, lib), IsAt(name, kind)), lib)
    ensures Filter(Records(raw, lib), IsAt(name, kind)) == []
       <==> forall a :: a in raw ==> !StandsAt(name, kind, lib)(a)
  {
    hide Filter, Records, IsAt;
    var p := StandsAt(name, kind, lib);
    var rs, answers := Filter(raw, p), Filter(Records(raw, lib), IsAt(name, kind));
    RecordsAtAreRaw(raw, name, kind, lib);
    var at := FilterPicks(raw, p);
    forall i | 0 <= i < |rs|
      ensures && answers[i].name == name && answers[i].kind == kind && answers[i].data == rs[i].data
              && answers[i].ttl == if rs[i].ttl == 0 then 60 else if rs[i].ttl < 1 then 1 else rs[i].ttl
    {
      assert p(raw[at[i]]) && answers[i] == ToRecord(lib)(rs[i]);
      TtlOf(rs[i], lib);
    }
    if rs != [] {
      assert raw[at[0]] in raw && p(raw[at[0]]);
    }
    forall a | a in raw && p(a) ensures rs != [] {
      var k :| 0 <= k < |raw| && raw[k] == a;
      assert k in at;
    }
  }

  // A successful answer holds what the Answer section says of the queried type at the name the
  // chain ends in, or, when it says nothing there, at the queried name itself.
  lemma AnswersExactly(raw: seq<Raw>, qname: string, qtype: string, lib: Library, e: Extract)
    requires e == Extracted(0, raw, qname, qtype, lib)
    ensures var first := lib.norm(qname);
            var final := if e.chain == [] then first else e.chain[|e.chain| - 1];
            var there := exists a :: a in raw && StandsAt(final, qtype, lib)(a);
            && Tells(raw, if there then final else first, qtype, e.answers, lib)
            && (e.answers == [] <==> !there && forall a :: a in raw ==> !StandsAt(first, qtype, lib)(a))
  {
    hide Filter, Records, IsAt, StandsAt, Walk, Ips, MinTtlOr60, JoinComma, Tells;
    var first := lib.norm(qname);
    var final := if e.chain == [] then first else e.chain[|e.chain| - 1];
    RecordsTold(raw, final, qtype, lib);
    RecordsTold(raw, first, qtype, lib);
  }

  // The first CNAME record of name, if it has one, leads to target.
  ghost predicate Leads(raw: seq<Raw>, name: string, target: string, lib: Library) {
    exists i :: 0 <= i < |raw| && StandsAt(name, "CNAME", lib)(raw[i])
                && target == lib.norm(raw[i].data) && target != ""
                && forall j :: 0 <= j < i ==> !StandsAt(name, "CNAME", lib)(raw[j])
  }

  lemma TargetLeads(raw: seq<Raw>, name: string, lib: Library)
    ensures forall t :: Leads(raw, name, t, lib) <==> Target(Records(raw, lib), name, lib) == Some(t)
  {
    hide Filter, Records;
    var p := StandsAt(name, "CNAME", lib);
    var rs := Filter(raw, p);
    RecordsAtAreRaw(raw, name, "CNAME", lib);
    var at := FilterPicks(raw, p);
    if rs != [] {
      forall j | 0 <= j < at[0] ensures !p(raw[j]) {
        assert p(raw[j]) ==> j in at;
      }
    } else {
      forall j: nat | j < |raw| ensures !p(raw[j]) {
        assert p(raw[j]) ==> j in at;
      }
    }
  }

  // The name whose CNAME record gave the i-th name of the chain.
  function OwnerOf(first: string, chain: seq<string>, i: nat): string
    requires i <= |chain|
  {
    if i == 0 then first else chain[i - 1]
  }

  // Nothing leads on from name.
  ghost predicate DeadEnd(raw: seq<Raw>, name: string, lib: Library) {
    forall t :: !Leads(raw, name, t, lib)
  }

  ghost predicate CameBefore(first: string, chain: seq<string>) {
    exists i :: 0 <= i < |chain| && OwnerOf(first, chain, i) == OwnerOf(first, chain, |chain|)
  }

  // The chain follows the first CNAME record of each name, and ends only where there is none,
  // where a name comes again, or after ten steps.
  lemma ChainExactly(raw: seq<Raw>, qname: string, qtype: string, lib: Library, e: Extract)
    requires e == Extracted(0, raw, qname, qtype, lib)
    ensures var first, n := lib.norm(qname), |e.chain|;
            && n <= 10
            && (forall i :: 0 <= i < n ==> Leads(raw, OwnerOf(first, e.chain, i), e.chain[i], lib))
            && (forall i, j :: 0 <= i < j < n ==> OwnerOf(first, e.chain, i) != OwnerOf(first, e.chain, j))
            && (n == 10 || DeadEnd(raw, OwnerOf(first, e.chain, n), lib) || CameBefore(first, e.chain))
  {
    ChainIsWalk(raw, qname, qtype, lib);
    hide Records, Leads, DeadEnd, CameBefore, Extracted, Walk;
    var first := lib.norm(qname);
    StepsLead(raw, first, e.chain, lib);
    EndsSomehow(raw, first, e.chain, lib);
  }

  lemma StepsLead(raw: seq<Raw>, first: string, chain: seq<string>, lib: Library)
    requires chain == Walk(Records(raw, lib), first, {}, 10, lib)
    ensures forall i :: 0 <= i < |chain| ==> Leads(raw, OwnerOf(first, chain, i), chain[i], lib)
    ensures forall i, j :: 0 <= i < j < |chain| ==> OwnerOf(first, chain, i) != OwnerOf(first, chain, j)
  {
    hide Records, Leads, Target;
    WalkFollowsEdges(Records(raw, lib), first, {}, 10, lib);
    hide Walk;
    var owners := Owners(first, chain);
    assert forall i :: 0 <= i < |chain| ==> owners[i] == OwnerOf(first, chain, i);
    forall i | 0 <= i < |chain| ensures Leads(raw, OwnerOf(first, chain, i), chain[i], lib) {
      assert Target(Records(raw, lib), owners[i], lib) == Some(chain[i]);
      TargetLeads(raw, owners[i], lib);
    }
  }

  lemma EndsSomehow(raw: seq<Raw>, first: string, chain: seq<string>, lib: Library)
    requires chain == Walk(Records(raw, lib), first, {}, 10, lib)
    ensures |chain| == 10 || DeadEnd(raw, OwnerOf(first, chain, |chain|), lib) || CameBefore(first, chain)
  {
    hide Records, Leads, Target;
    WalkIsMaximal(Records(raw, lib), first, {}, 10, lib);
    hide Walk;
    TargetLeads(raw, OwnerOf(first, chain, |chain|), lib);
  }

  lemma {:induction false} WalkIsMaximal(recs: seq<DnsRecord>, current: string, visited: set<string>, steps: nat,
                                         lib: Library)
    ensures var w := Walk(recs, current, visited, steps, lib);
            var final := OwnerOf(current, w, |w|);
            |w| == steps || Target(recs, final, lib) == None || final in visited
            || exists i :: 0 <= i < |w| && OwnerOf(current, w, i) == final
    decreases steps
  {
    hide Target;
    var w := Walk(recs, current, visited, steps, lib);
    if w != [] {
      var rest := w[1..];
      WalkIsMaximal(recs, w[0], visited + {current}, steps - 1, lib);
      assert w == [w[0]] + rest;
      var final := OwnerOf(current, w, |w|);
      assert final == OwnerOf(w[0], rest, |rest|);
      if final == current {
        assert OwnerOf(current, w, 0) == final;
      } else if exists i :: 0 <= i < |rest| && OwnerOf(w[0], rest, i) == final {
        var i :| 0 <= i < |rest| && OwnerOf(w[0], rest, i) == final;
        assert OwnerOf(current, w, i + 1) == final;
      }
    }
  }

  // The addresses are the data of the answers, each once and in collation order; the TTL is the
  // least one, or 60 without answers.
  lemma AddressesExactly(raw: seq<Raw>, qname: string, qtype: string, lib: Library, e: Extract)
    requires e == Extracted(0, raw, qname, qtype, lib) && TotalPreorder(lib.collate)
    ensures forall ip :: ip in e.ips <==> exists a :: a in e.answers && a.data == ip
    ensures Sorted(e.ips, lib.collate) && forall i, j :: 0 <= i < j < |e.ips| ==> e.ips[i] != e.ips[j]
    ensures if e.answers == [] then e.ttlS == 60 else
              (forall a :: a in e.answers ==> e.ttlS <= a.ttl) && exists a :: a in e.answers && a.ttl == e.ttlS
  {
    hide Filter, Walk, JoinComma, Records;
    RecordTtls(raw, lib);
    IpsAreData(e.answers, lib);
    var data := Dedup(Map(e.answers, DataOf));
    SortSorted(data, lib.collate);
    SortedDistinct(data, e.ips);
    TtlAttained(e.answers);
  }

  lemma TtlAttained(s: seq<DnsRecord>)
    requires forall r :: r in s ==> r.ttl >= 1
    ensures s != [] ==> (forall r :: r in s ==> MinTtlOr60(s) <= r.ttl) && exists r :: r in s && r.ttl == MinTtlOr60(s)
  {
    if s != [] {
      var m := MinRecordTtl(s);
      var r :| r in s && m == r.ttl;
      assert r.ttl == MinTtlOr60(s);
    }
  }

  lemma SortedDistinct(s: seq<string>, t: seq<string>)
    requires multiset(s) == multiset(t) && forall i, j :: 0 <= i < j < |s| ==> s[i] != s[j]
    ensures forall i, j :: 0 <= i < j < |t| ==> t[i] != t[j]
  {
    forall i, j | 0 <= i < j < |t| ensures t[i] != t[j] {
      DedupCounts(s, t[i]);
      assert t == t[..i] + [t[i]] + t[i + 1..j] + [t[j]] + t[j + 1..];
    }
  }

  // The status follows the code alone; what is no success has no chain and no addresses, and the
  // fixed TTLs.
  lemma StatusExactly(statusCode: int, raw: seq<Raw>, qname: string, qtype: string, lib: Library, e: Extract)
    requires e == Extracted(statusCode, raw, qname, qtype, lib)
    ensures (e.status == NOERROR <==> statusCode == 0) && (e.status == NXDOMAIN <==> statusCode == 3)
    ensures e.status != NOERROR ==>
              e.chain == [] && e.answers == [] && e.ips == [] && e.ttlS == if statusCode == 3 then 30 else 1
  {
  }

  // ---------- which answers are grouped together ----------

  predicate PlainData(ips: seq<string>) {
    forall i :: 0 <= i < |ips| ==> ips[i] != "" && ',' !in ips[i]
  }

  lemma {:induction false} JoinCommaUnique(a: seq<string>, b: seq<string>)
    requires PlainData(a) && PlainData(b) && JoinComma(a) == JoinComma(b)
    ensures a == b
    decreases |a|
  {
    JoinCommaHead(a);
    JoinCommaHead(b);
    if |a| > 1 && |b| > 1 {
      SameBefore(a[0], JoinComma(a[1..]), b[0], JoinComma(b[1..]), ',');
      JoinCommaUnique(a[1..], b[1..]);
      assert a == [a[0]] + a[1..] && b == [b[0]] + b[1..];
    }
  }

  lemma JoinCommaHead(a: seq<string>)
    requires PlainData(a)
    ensures JoinComma(a) == "" <==> a == []
    ensures |a| == 1 ==> JoinComma(a) == a[0]
    ensures |a| > 1 ==> JoinComma(a) == a[0] + [','] + JoinComma(a[1..])
    ensures ',' in JoinComma(a) <==> |a| > 1
  {
    if |a| > 1 {
      assert (a[0] + [','] + JoinComma(a[1..]))[|a[0]|] == ',';
    }
  }

  function FinalName(qname: string, e: Extract, lib: Library): string {
    OwnerOf(lib.norm(qname), e.chain, |e.chain|)
  }

  // Two successful answers carry the hash of one text exactly when the queried type, the name
  // the chain ends in and the addresses are the same.
  lemma HashedAlikeExactly(raw: seq<Raw>, qname: string, qtype: string, lib: Library, e: Extract,
                           raw': seq<Raw>, qname': string, qtype': string, e': Extract)
    returns (text: string, text': string)
    requires e == Extracted(0, raw, qname, qtype, lib) && e' == Extracted(0, raw', qname', qtype', lib)
    requires '|' !in qtype && '|' !in qtype' && PlainData(e.ips) && PlainData(e'.ips)
    requires '|' !in FinalName(qname, e, lib) && '|' !in FinalName(qname', e', lib)
    ensures e.rrsetHash == lib.hash(text) && e'.rrsetHash == lib.hash(text')
    ensures text == text' <==>
              qtype == qtype' && FinalName(qname, e, lib) == FinalName(qname', e', lib) && e.ips == e'.ips
  {
    hide Records, Walk, UsableAt, Ips, MinTtlOr60, JoinComma;
    var m, m' := FinalName(qname, e, lib), FinalName(qname', e', lib);
    var j, j' := JoinComma(e.ips), JoinComma(e'.ips);
    text, text' := qtype + "|" + m + "|" + j, qtype' + "|" + m' + "|" + j';
    if text == text' {
      assert text == qtype + ['|'] + (m + ['|'] + j) && text' == qtype' + ['|'] + (m' + ['|'] + j');
      SameBefore(qtype, m + ['|'] + j, qtype', m' + ['|'] + j', '|');
      SameBefore(m, j, m', j', '|');
      JoinCommaUnique(e.ips, e'.ips);
    }
  }
}
