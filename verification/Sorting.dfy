// Array.prototype.sort with a comparator: a stable sort, and the exact condition under which
// what is written out after sorting no longer depends on the order of the input.
module Sorting {

  ghost predicate TotalPreorder<T(!new)>(le: (T, T) -> bool) {
    && (forall a, b :: le(a, b) || le(b, a))
    && (forall a, b, c :: le(a, b) && le(b, c) ==> le(a, c))
  }

  ghost predicate Sorted<T>(s: seq<T>, le: (T, T) -> bool) {
    forall i, j :: 0 <= i < j < |s| ==> le(s[i], s[j])
  }

  predicate Tied<T>(a: T, b: T, le: (T, T) -> bool) {
    le(a, b) && le(b, a)
  }

  // Array.prototype.findIndex, or the length.
  function FirstIndex<T>(s: seq<T>, p: T -> bool): (i: nat)
    ensures i <= |s| && (forall j :: 0 <= j < i ==> !p(s[j])) && (i < |s| ==> p(s[i]))
  {
    if s == [] || p(s[0]) then 0
    else
      var i := FirstIndex(s[1..], p);
      assert forall j :: 0 < j < 1 + i ==> s[j] == s[1..][j - 1];
      1 + i
  }

  lemma FirstIndexIs<T>(s: seq<T>, p: T -> bool, i: nat)
    requires i <= |s| && (forall j :: 0 <= j < i ==> !p(s[j])) && (i < |s| ==> p(s[i]))
    ensures FirstIndex(s, p) == i
  {
  }

  lemma FirstIndexPush<T>(s: seq<T>, x: T, p: T -> bool)
    ensures var i := FirstIndex(s, p);
            FirstIndex(s + [x], p) == if i < |s| then i else if p(x) then |s| else |s| + 1
  {
    var i := FirstIndex(s, p);
    FirstIndexIs(s + [x], p, if i < |s| then i else if p(x) then |s| else |s| + 1);
  }

  // x goes in front of the first element it does not exceed, hence in front of its ties.
  function Insert<T>(x: T, s: seq<T>, le: (T, T) -> bool): (r: seq<T>)
    ensures multiset(r) == multiset(s) + multiset{x}
  {
    if s == [] || le(x, s[0]) then [x] + s
    else
      assert s == [s[0]] + s[1..];
      [s[0]] + Insert(x, s[1..], le)
  }

  function Sort<T>(s: seq<T>, le: (T, T) -> bool): (r: seq<T>)
    ensures multiset(r) == multiset(s)
    ensures |r| == |s|
  {
    if s == [] then []
    else
      assert s == [s[0]] + s[1..];
      var r := Insert(s[0], Sort(s[1..], le), le);
      assert |r| == |multiset(r)| == |multiset(s)|;
      r
  }

  // Equal concatenations with heads of one length have equal parts.
  lemma SameHead<T>(a: seq<T>, s: seq<T>, b: seq<T>, t: seq<T>)
    requires a + s == b + t && |a| == |b|
    ensures a == b && s == t
  {
    assert a == (a + s)[..|a|] && b == (b + t)[..|b|];
    assert s == (a + s)[|a|..] && t == (b + t)[|b|..];
  }

  lemma SameTail<T>(a: seq<T>, b: seq<T>, w: seq<T>)
    requires a + w == b + w
    ensures a == b
  {
    assert |a| == |b|;
    SameHead(a, w, b, w);
  }

  // The first x in a sequence is where it is.
  lemma SameBefore<T>(a: seq<T>, s: seq<T>, b: seq<T>, t: seq<T>, x: T)
    requires a + [x] + s == b + [x] + t && x !in a && x !in b
    ensures a == b && s == t
  {
    var u, v := a + [x] + s, b + [x] + t;
    assert u[|a|] == x && v[|b|] == x;
    assert forall i :: 0 <= i < |a| ==> u[i] == a[i] && a[i] in a;
    assert forall i :: 0 <= i < |b| ==> v[i] == b[i] && b[i] in b;
    assert |a| == |b|;
    SameHead(a + [x], s, b + [x], t);
    SameHead(a, [x], b, [x]);
  }

  // What stands between equal parts is equal.
  lemma CutMiddle<T>(p: seq<T>, s: seq<T>, t: seq<T>, u: seq<T>, v: seq<T>, w: seq<T>)
    requires p + s + u + v + w == p + t + u + v + w
    ensures s == t
  {
    SameTail(p + s + u + v, p + t + u + v, w);
    SameTail(p + s + u, p + t + u, v);
    SameTail(p + s, p + t, u);
    SameHead(p, s, p, t);
  }

  lemma ConcatAssociative<T>(x: seq<T>, y: seq<T>, z: seq<T>)
    ensures x + (y + z) == (x + y) + z
  {
  }

  lemma ConcatNothing<T>(x: seq<T>)
    ensures x + [] == x
  {
  }

  lemma MembersOf<T>(a: seq<T>, b: seq<T>)
    requires multiset(a) == multiset(b)
    ensures forall x :: x in a <==> x in b
    ensures |a| == |b|
  {
    forall x ensures x in a <==> x in b {
      assert x in a <==> x in multiset(a);
      assert x in b <==> x in multiset(b);
    }
    assert |a| == |multiset(a)| && |b| == |multiset(b)|;
  }

  lemma {:induction false} InsertSorted<T(!new)>(x: T, s: seq<T>, le: (T, T) -> bool)
    requires TotalPreorder(le) && Sorted(s, le)
    ensures Sorted(Insert(x, s, le), le)
  {
    if s != [] && !le(x, s[0]) {
      var rest := Insert(x, s[1..], le);
      InsertSorted(x, s[1..], le);
      forall y | y in rest ensures le(s[0], y) {
        assert y in multiset(rest);
        assert y in s[1..] || y == x;
      }
    }
  }

  lemma {:induction false} SortSorted<T(!new)>(s: seq<T>, le: (T, T) -> bool)
    requires TotalPreorder(le)
    ensures Sorted(Sort(s, le), le)
  {
    if s != [] {
      SortSorted(s[1..], le);
      InsertSorted(s[0], Sort(s[1..], le), le);
    }
  }

  // The first of a sorted sequence is a least element, and of those the one that came first.
  lemma {:induction false} SortHead<T(!new)>(s: seq<T>, le: (T, T) -> bool) returns (k: nat)
    requires TotalPreorder(le) && s != []
    ensures k < |s| && Sort(s, le)[0] == s[k] && forall j :: 0 <= j < |s| ==> le(s[k], s[j])
    ensures forall j :: 0 <= j < k ==> !le(s[j], s[k])
  {
    if |s| == 1 {
      k := 0;
    } else {
      var rest := s[1..];
      var i := SortHead(rest, le);
      assert Sort(s, le) == Insert(s[0], Sort(rest, le), le);
      k := if le(s[0], rest[i]) then 0 else i + 1;
      forall j | 0 <= j < |s| ensures le(s[k], s[j]) {
        assert j > 0 ==> s[j] == rest[j - 1] && le(rest[i], rest[j - 1]);
      }
      forall j | 0 <= j < k ensures !le(s[j], s[k]) {
        assert j > 0 ==> s[j] == rest[j - 1];
      }
    }
  }

  lemma {:induction false} SortOfSorted<T>(s: seq<T>, le: (T, T) -> bool)
    requires Sorted(s, le)
    ensures Sort(s, le) == s
  {
    if s != [] {
      SortOfSorted(s[1..], le);
    }
  }

  lemma SortIdempotent<T(!new)>(s: seq<T>, le: (T, T) -> bool)
    requires TotalPreorder(le)
    ensures Sort(Sort(s, le), le) == Sort(s, le)
  {
    SortSorted(s, le);
    SortOfSorted(Sort(s, le), le);
  }

  lemma Without<T>(s: seq<T>, k: nat)
    requires k < |s|
    ensures multiset(s[..k] + s[k + 1..]) == multiset(s) - multiset{s[k]}
    ensures multiset(s) == multiset(s[..k] + s[k + 1..]) + multiset{s[k]}
  {
    assert s == s[..k] + [s[k]] + s[k + 1..];
  }

  // Two sorted arrangements of the same elements agree, position by position, up to ties.
  lemma {:induction false} SortedAgree<T(!new)>(a: seq<T>, b: seq<T>, le: (T, T) -> bool)
    requires TotalPreorder(le) && Sorted(a, le) && Sorted(b, le)
    requires multiset(a) == multiset(b)
    ensures |a| == |b|
    ensures forall i :: 0 <= i < |a| ==> Tied(a[i], b[i], le)
  {
    MembersOf(a, b);
    if a != [] {
      var k := FindEqual(a, b);
      SortedAgree(a[1..], b[..k] + b[k + 1..], le);
      assert b[0] in a;
      AgreeExtends(a, b, k, le);
    }
  }

  lemma FindEqual<T(!new)>(a: seq<T>, b: seq<T>) returns (k: nat)
    requires multiset(a) == multiset(b) && a != []
    ensures k < |b| && b[k] == a[0]
    ensures multiset(a[1..]) == multiset(b[..k] + b[k + 1..])
  {
    MembersOf(a, b);
    assert a[0] in b;
    k :| 0 <= k < |b| && b[k] == a[0];
    assert a[..0] + a[1..] == a[1..];
    Without(a, 0);
    Without(b, k);
  }

  lemma AgreeExtends<T(!new)>(a: seq<T>, b: seq<T>, k: nat, le: (T, T) -> bool)
    requires TotalPreorder(le) && Sorted(b, le)
    requires k < |b| == |a| && b[k] == a[0] && le(a[0], b[0])
    requires var b' := b[..k] + b[k + 1..]; forall i :: 0 <= i < |b'| ==> Tied(a[1..][i], b'[i], le)
    ensures forall i :: 0 <= i < |a| ==> Tied(a[i], b[i], le)
  {
    var b' := b[..k] + b[k + 1..];
    forall i | 0 <= i < |a| ensures Tied(a[i], b[i], le) {
      assert i == 0 || Tied(a[1..][i - 1], b'[i - 1], le);
      if 0 < i <= k {
        assert b'[i - 1] == b[i - 1];
        assert le(b[i - 1], b[i]);
        assert le(b[i], a[0]);
        assert le(b[i], b[0]);
        assert le(b[0], b[i - 1]);
        assert Tied(b[i - 1], b[i], le);
      }
    }
  }

  lemma Chain<T(!new)>(a: T, b: T, c: T, le: (T, T) -> bool)
    requires TotalPreorder(le)
    ensures le(a, b) && le(b, c) ==> le(a, c)
  {
  }

  function Map<T, U>(s: seq<T>, f: T -> U): (r: seq<U>)
    ensures |r| == |s|
    ensures forall i :: 0 <= i < |s| ==> r[i] == f(s[i])
  {
    seq(|s|, i requires 0 <= i < |s| => f(s[i]))
  }

  function Filter<T>(s: seq<T>, p: T -> bool): (r: seq<T>)
    ensures forall x :: x in r ==> x in s && p(x)
    ensures |r| <= |s|
  {
    if s == [] then [] else (if p(s[0]) then [s[0]] else []) + Filter(s[1..], p)
  }

  // r holds the elements of s that satisfy p, all of them and in their order: at says where they
  // stand.
  ghost predicate Picks<T>(s: seq<T>, p: T -> bool, r: seq<T>, at: seq<nat>) {
    Points(s, p, r, at) && Ascends(at) && Covers(s, p, at)
  }

  ghost predicate Points<T>(s: seq<T>, p: T -> bool, r: seq<T>, at: seq<nat>) {
    |at| == |r| && forall i :: 0 <= i < |at| ==> at[i] < |s| && p(s[at[i]]) && r[i] == s[at[i]]
  }

  ghost predicate Ascends(at: seq<nat>) {
    forall i, j :: 0 <= i < j < |at| ==> at[i] < at[j]
  }

  ghost predicate Covers<T>(s: seq<T>, p: T -> bool, at: seq<nat>) {
    forall k: nat :: k < |s| && p(s[k]) ==> k in at
  }

  function Moved(at: seq<nat>): (r: seq<nat>)
    ensures |r| == |at| && forall i :: 0 <= i < |r| ==> r[i] == at[i] + 1
  {
    seq(|at|, i requires 0 <= i < |at| => at[i] + 1)
  }

  lemma MovedHolds(at: seq<nat>, k: nat)
    requires k in at
    ensures k + 1 in Moved(at)
  {
    var i :| 0 <= i < |at| && at[i] == k;
    assert Moved(at)[i] == k + 1;
  }

  lemma CoversBehind<T>(x: T, s: seq<T>, p: T -> bool, at: seq<nat>, on: seq<nat>)
    requires Covers(s, p, at) && ((on == Moved(at) && !p(x)) || on == [0] + Moved(at))
    ensures Covers([x] + s, p, on)
  {
    hide Moved;
    var t := [x] + s;
    forall k: nat | k < |t| && p(t[k]) ensures k in on {
      if k > 0 {
        assert t[k] == s[k - 1];
        MovedHolds(at, k - 1);
      }
    }
  }

  lemma PicksSkips<T>(x: T, s: seq<T>, p: T -> bool, r: seq<T>, at: seq<nat>)
    requires Picks(s, p, r, at) && !p(x)
    ensures Picks([x] + s, p, r, Moved(at))
  {
    CoversBehind(x, s, p, at, Moved(at));
    hide Covers;
    PointsSkips(x, s, p, r, at);
    hide Points;
  }

  lemma PointsSkips<T>(x: T, s: seq<T>, p: T -> bool, r: seq<T>, at: seq<nat>)
    requires Points(s, p, r, at)
    ensures Points([x] + s, p, r, Moved(at))
  {
    var on, t := Moved(at), [x] + s;
    forall i | 0 <= i < |on| ensures on[i] < |t| && p(t[on[i]]) && r[i] == t[on[i]] {
      assert on[i] == at[i] + 1;
    }
  }

  lemma PicksTakes<T>(x: T, s: seq<T>, p: T -> bool, r: seq<T>, at: seq<nat>)
    requires Picks(s, p, r, at) && p(x)
    ensures Picks([x] + s, p, [x] + r, [0] + Moved(at))
  {
    CoversBehind(x, s, p, at, [0] + Moved(at));
    hide Covers;
    PointsTakes(x, s, p, r, at);
    hide Points;
  }

  lemma PointsTakes<T>(x: T, s: seq<T>, p: T -> bool, r: seq<T>, at: seq<nat>)
    requires Points(s, p, r, at) && p(x)
    ensures Points([x] + s, p, [x] + r, [0] + Moved(at))
  {
    var on, t, q := [0] + Moved(at), [x] + s, [x] + r;
    forall i | 0 <= i < |on| ensures on[i] < |t| && p(t[on[i]]) && q[i] == t[on[i]] {
      assert i > 0 ==> on[i] == at[i - 1] + 1;
    }
  }

  lemma {:induction false} FilterPicks<T>(s: seq<T>, p: T -> bool) returns (at: seq<nat>)
    ensures Picks(s, p, Filter(s, p), at)
  {
    if s == [] {
      at := [];
    } else {
      hide Picks, Filter, Moved;
      var x, rest := s[0], s[1..];
      assert s == [x] + rest;
      FilterCons(x, rest, p);
      at := FilterPicks(rest, p);
      if p(x) {
        PicksTakes(x, rest, p, Filter(rest, p), at);
        at := [0] + Moved(at);
      } else {
        PicksSkips(x, rest, p, Filter(rest, p), at);
        at := Moved(at);
        assert [] + Filter(rest, p) == Filter(rest, p);
      }
    }
  }

  function MovedBack(at: seq<nat>): (r: seq<nat>)
    requires forall i :: 0 <= i < |at| ==> at[i] > 0
    ensures |r| == |at| && forall i :: 0 <= i < |r| ==> r[i] == at[i] - 1
  {
    seq(|at|, i requires 0 <= i < |at| => at[i] - 1)
  }

  lemma MovedBackHolds(at: seq<nat>, k: nat)
    requires forall i :: 0 <= i < |at| ==> at[i] > 0
    requires k + 1 in at
    ensures k in MovedBack(at)
  {
    var i :| 0 <= i < |at| && at[i] == k + 1;
    assert MovedBack(at)[i] == k;
  }

  lemma FirstPlace(at: seq<nat>)
    requires Ascends(at)
    ensures 0 in at ==> at[0] == 0
    ensures forall i :: (if 0 in at then 1 else 0) <= i < |at| ==> at[i] > 0
  {
  }

  lemma NotAtZero<T>(s: seq<T>, p: T -> bool, r: seq<T>, at: seq<nat>)
    requires s != [] && Points(s, p, r, at) && Covers(s, p, at)
    ensures 0 in at <==> p(s[0])
  {
  }

  lemma CoversAhead<T>(s: seq<T>, p: T -> bool, at: seq<nat>, d: nat)
    requires s != [] && Covers(s, p, at) && d <= |at| && (forall i :: d <= i < |at| ==> at[i] > 0)
    requires forall i :: 0 <= i < d ==> at[i] == 0
    ensures Covers(s[1..], p, MovedBack(at[d..]))
  {
    hide MovedBack;
    assert at == at[..d] + at[d..];
    forall k: nat | k < |s[1..]| && p(s[1..][k]) ensures k in MovedBack(at[d..]) {
      assert s[1..][k] == s[k + 1];
      MovedBackHolds(at[d..], k);
    }
  }

  lemma PointsAhead<T>(s: seq<T>, p: T -> bool, r: seq<T>, at: seq<nat>, d: nat)
    requires s != [] && Points(s, p, r, at) && d <= |at| && (forall i :: d <= i < |at| ==> at[i] > 0)
    ensures Points(s[1..], p, r[d..], MovedBack(at[d..]))
  {
    var on := MovedBack(at[d..]);
    forall i | 0 <= i < |on| ensures on[i] < |s[1..]| && p(s[1..][on[i]]) && r[d..][i] == s[1..][on[i]] {
      assert on[i] == at[i + d] - 1;
    }
  }

  // What is picked behind the first element.
  lemma PicksAhead<T>(s: seq<T>, p: T -> bool, r: seq<T>, at: seq<nat>)
    requires s != [] && Picks(s, p, r, at)
    ensures var d := if p(s[0]) then 1 else 0;
            && d <= |r| == |at| && (p(s[0]) ==> r[0] == s[0]) && (forall i :: d <= i < |at| ==> at[i] > 0)
            && Picks(s[1..], p, r[d..], MovedBack(at[d..]))
  {
    var d := if p(s[0]) then 1 else 0;
    NotAtZero(s, p, r, at);
    FirstPlace(at);
    CoversAhead(s, p, at, d);
    PointsAhead(s, p, r, at, d);
    hide Covers;
  }

  lemma PicksSome<T>(s: seq<T>, p: T -> bool, r: seq<T>, at: seq<nat>)
    requires Picks(s, p, r, at)
    ensures r != [] ==> s != []
  {
    if r != [] {
      assert at[0] < |s|;
    }
  }

  // Only the filtered sequence is picked.
  lemma {:induction false} PicksUnique<T>(s: seq<T>, p: T -> bool, r: seq<T>, at: seq<nat>)
    requires Picks(s, p, r, at)
    ensures r == Filter(s, p)
    decreases |s|
  {
    PicksSome(s, p, r, at);
    if s != [] {
      PicksAhead(s, p, r, at);
      hide Picks;
      var d := if p(s[0]) then 1 else 0;
      PicksUnique(s[1..], p, r[d..], MovedBack(at[d..]));
      assert r == (if p(s[0]) then [s[0]] else []) + r[d..];
    }
  }

  ghost function TiedWith<T>(x: T, le: (T, T) -> bool): T -> bool {
    y => Tied(x, y, le)
  }

  lemma FilterCons<T>(x: T, s: seq<T>, p: T -> bool)
    ensures Filter([x] + s, p) == (if p(x) then [x] else []) + Filter(s, p)
  {
    assert ([x] + s)[1..] == s;
  }

  lemma {:induction false} InsertKeepsClass<T(!new)>(y: T, s: seq<T>, x: T, le: (T, T) -> bool)
    requires TotalPreorder(le)
    ensures var p := TiedWith(x, le);
            Filter(Insert(y, s, le), p) == (if p(y) then [y] else []) + Filter(s, p)
  {
    var p := TiedWith(x, le);
    if s == [] || le(y, s[0]) {
      FilterCons(y, s, p);
    } else {
      InsertKeepsClass(y, s[1..], x, le);
      FilterCons(s[0], Insert(y, s[1..], le), p);
      Chain(y, x, s[0], le);
    }
  }

  // Stability: tied elements keep the order they had in the input.
  lemma {:induction false} SortStable<T(!new)>(s: seq<T>, x: T, le: (T, T) -> bool)
    requires TotalPreorder(le)
    ensures Filter(Sort(s, le), TiedWith(x, le)) == Filter(s, TiedWith(x, le))
  {
    if s != [] {
      SortStable(s[1..], x, le);
      InsertKeepsClass(s[0], Sort(s[1..], le), x, le);
    }
  }

  lemma {:induction false} FilterMap<T, U>(s: seq<T>, t: seq<T>, f: T -> U, p: T -> bool)
    requires Map(s, f) == Map(t, f)
    requires |s| == |t| && forall i :: 0 <= i < |s| ==> p(s[i]) == p(t[i])
    ensures Map(Filter(s, p), f) == Map(Filter(t, p), f)
  {
    if s != [] {
      hide Map, Filter;
      var x, y, s', t' := s[0], t[0], s[1..], t[1..];
      assert s == [x] + s' && t == [y] + t';
      MapCons(x, s', f);
      MapCons(y, t', f);
      assert Map(s, f)[0] == f(x) && Map(t, f)[0] == f(y);
      assert Map(s, f)[1..] == Map(s', f) && Map(t, f)[1..] == Map(t', f);
      FilterMap(s', t', f, p);
      FilterCons(x, s', p);
      FilterCons(y, t', p);
      var a, b := Filter(s', p), Filter(t', p);
      MapCons(x, a, f);
      MapCons(y, b, f);
      assert p(x) == p(y);
      assert [] + a == a && [] + b == b;
    }
  }

  lemma MapCons<T, U>(x: T, s: seq<T>, f: T -> U)
    ensures Map([x] + s, f) == [f(x)] + Map(s, f)
  {
  }

  ghost predicate TiesAgree<T, U>(s: seq<T>, f: T -> U, le: (T, T) -> bool) {
    forall a, b :: a in s && b in s && Tied(a, b, le) ==> f(a) == f(b)
  }

  ghost predicate OrderFree<T(!new), U>(s: seq<T>, f: T -> U, le: (T, T) -> bool) {
    forall t: seq<T> :: multiset(t) == multiset(s) ==> Map(Sort(t, le), f) == Map(Sort(s, le), f)
  }

  lemma SortedImage<T(!new), U>(s: seq<T>, t: seq<T>, f: T -> U, le: (T, T) -> bool)
    requires TotalPreorder(le) && TiesAgree(s, f, le)
    requires multiset(t) == multiset(s)
    ensures Map(Sort(t, le), f) == Map(Sort(s, le), f)
  {
    var a, b := Sort(t, le), Sort(s, le);
    SortSorted(t, le);
    SortSorted(s, le);
    SortedAgree(a, b, le);
    MembersOf(a, s);
    MembersOf(b, s);
    forall i | 0 <= i < |a| ensures f(a[i]) == f(b[i]) {
      assert a[i] in s && b[i] in s && Tied(a[i], b[i], le);
    }
  }

  // Two tied elements with different images, put first in either order, betray the order.
  lemma TieBreaksOrder<T(!new), U>(s: seq<T>, a: T, b: T, f: T -> U, le: (T, T) -> bool) returns (t: seq<T>, u: seq<T>)
    requires TotalPreorder(le)
    requires a in s && b in s && Tied(a, b, le) && f(a) != f(b)
    ensures multiset(t) == multiset(s) == multiset(u)
    ensures Map(Sort(t, le), f) != Map(Sort(u, le), f)
  {
    var rest := PullOut(s, a, b);
    t, u := [a] + ([b] + rest), [b] + ([a] + rest);
    HeadShows(a, [b] + rest, b, [a] + rest, f, le);
  }

  lemma PullOut<T>(s: seq<T>, a: T, b: T) returns (rest: seq<T>)
    requires a in s && b in s && a != b
    ensures multiset(s) == multiset([a] + ([b] + rest)) == multiset([b] + ([a] + rest))
  {
    var r := Extract(s, a);
    assert b in multiset(s) && b in multiset(r);
    rest := Extract(r, b);
  }

  lemma Extract<T>(s: seq<T>, x: T) returns (rest: seq<T>)
    requires x in s
    ensures multiset(s) == multiset(rest) + multiset{x}
  {
    var k :| 0 <= k < |s| && s[k] == x;
    rest := s[..k] + s[k + 1..];
    Without(s, k);
  }

  lemma ClassesAlign<T(!new)>(s: seq<T>, r: seq<T>, x: T, le: (T, T) -> bool)
    requires TotalPreorder(le) && Sorted(s, le) && Sorted(r, le)
    requires multiset(s) == multiset(r)
    ensures |s| == |r|
    ensures forall i :: 0 <= i < |s| ==> TiedWith(x, le)(s[i]) == TiedWith(x, le)(r[i])
  {
    SortedAgree(s, r, le);
    forall i | 0 <= i < |s| ensures TiedWith(x, le)(s[i]) == TiedWith(x, le)(r[i]) {
      assert Tied(s[i], r[i], le);
      Chain(s[i], r[i], x, le);
      Chain(r[i], s[i], x, le);
      Chain(x, r[i], s[i], le);
      Chain(x, s[i], r[i], le);
    }
  }

  lemma HeadShows<T(!new), U>(a: T, t: seq<T>, b: T, u: seq<T>, f: T -> U, le: (T, T) -> bool)
    requires TotalPreorder(le)
    requires multiset([a] + t) == multiset([b] + u)
    requires Tied(a, b, le) && f(a) != f(b)
    ensures Map(Sort([a] + t, le), f) != Map(Sort([b] + u, le), f)
  {
    var s, r := Sort([a] + t, le), Sort([b] + u, le);
    var p := TiedWith(a, le);
    SortSorted([a] + t, le);
    SortSorted([b] + u, le);
    SortStable([a] + t, a, le);
    SortStable([b] + u, a, le);
    FilterCons(a, t, p);
    FilterCons(b, u, p);
    assert p(a) && p(b);
    assert Map(Filter(s, p), f)[0] == f(a) && Map(Filter(r, p), f)[0] == f(b);
    ClassesAlign(s, r, a, le);
    if Map(s, f) == Map(r, f) {
      FilterMap(s, r, f, p);
    }
  }

  // What is written after sorting is free of the input's order exactly when tied elements
  // are written alike.
  lemma OrderFreeExactly<T(!new), U>(s: seq<T>, f: T -> U, le: (T, T) -> bool)
    requires TotalPreorder(le)
    ensures OrderFree(s, f, le) <==> TiesAgree(s, f, le)
  {
    if TiesAgree(s, f, le) {
      forall t: seq<T> | multiset(t) == multiset(s) ensures Map(Sort(t, le), f) == Map(Sort(s, le), f) {
        SortedImage(s, t, f, le);
      }
    } else {
      var a, b :| a in s && b in s && Tied(a, b, le) && f(a) != f(b);
      var t, u := TieBreaksOrder(s, a, b, f, le);
    }
  }
}
