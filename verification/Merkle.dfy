// core/src/registry_merkle.ts: the Merkle tree over the registry, its proofs and their verifier.
module Merkle {
  import opened Sorting
  import opened Bytes

  // blake3 over text, as lower-case hex.
  type Hash = string -> string

  const HASH_LENGTH := 64

  ghost predicate HexDigest(h: Hash) {
    forall s :: |h(s)| == HASH_LENGTH
  }

  // A record, reduced to its normalized name and the JSON text canonicalizeRecord gives for it.
  datatype Record = Record(name: string, canonical: string)

  datatype Leaf = Leaf(name: string, hash: string)
  datatype Direction = Left | Right
  datatype Proof = Proof(siblings: seq<string>, directions: seq<Direction>)
  datatype BuiltProof = BuiltProof(leaf: string, proof: Proof, root: string)

  function HashLeaf(r: Record, h: Hash): string {
    h(r.name + "\n" + r.canonical)
  }

  // ---------- the tree ----------

  // level[i + 1] ?? level[i]
  function Partner(level: seq<string>, i: nat): string
    requires i < |level|
  {
    if i + 1 < |level| then level[i + 1] else level[i]
  }

  function NextLevel(level: seq<string>, h: Hash): (r: seq<string>)
    ensures |r| == (|level| + 1) / 2
    ensures forall j :: 0 <= j < |r| ==> r[j] == h(level[2 * j] + Partner(level, 2 * j))
  {
    seq((|level| + 1) / 2, j requires 0 <= j < (|level| + 1) / 2 => h(level[2 * j] + Partner(level, 2 * j)))
  }

  function Layers(level: seq<string>, h: Hash): (r: seq<seq<string>>)
    ensures r != [] && r[0] == level
    decreases |level|
  {
    if |level| <= 1 then [level] else [level] + Layers(NextLevel(level, h), h)
  }

  function RootOf(level: seq<string>, h: Hash): string
    requires level != []
    decreases |level|
  {
    if |level| == 1 then level[0] else RootOf(NextLevel(level, h), h)
  }

  function Height(n: nat): nat {
    if n <= 1 then 0 else 1 + Height((n + 1) / 2)
  }

  // The inner loop: neighbours are hashed together, a last one alone with itself.
  method PairUp(level: seq<string>, h: Hash) returns (next: seq<string>)
    ensures next == NextLevel(level, h)
  {
    next := [];
    var i := 0;
    while i < |level|
      invariant 0 <= i <= |level| + 1 && i % 2 == 0
      invariant |next| == i / 2
      invariant forall j :: 0 <= j < |next| ==> next[j] == h(level[2 * j] + Partner(level, 2 * j))
    {
      var left := level[i];
      var right := if i + 1 < |level| then level[i + 1] else level[i];
      next := next + [h(left + right)];
      i := i + 2;
    }
  }

  method BuildTree(leaves: seq<string>, h: Hash) returns (layers: seq<seq<string>>)
    ensures layers == Layers(leaves, h)
  {
    hide NextLevel;
    var level := leaves;
    layers := [level];
    while |level| > 1
      invariant layers != [] && level == layers[|layers| - 1]
      invariant Layers(leaves, h) == layers[..|layers| - 1] + Layers(level, h)
      decreases |level|
    {
      var next := PairUp(level, h);
      assert layers[..|layers| - 1] + ([level] + Layers(next, h)) == layers + Layers(next, h);
      level := next;
      layers := layers + [level];
    }
  }

  lemma {:induction false} LayersEnd(level: seq<string>, h: Hash)
    ensures var l := Layers(level, h);
            |l| == Height(|level|) + 1
            && (level == [] ==> l == [[]])
            && (level != [] ==> l[|l| - 1] == [RootOf(level, h)])
    decreases |level|
  {
    if |level| > 1 {
      LayersEnd(NextLevel(level, h), h);
    }
  }

  // Height is the ceiling of the binary logarithm.
  lemma {:induction false} HeightIsLog(n: nat)
    requires n > 0
    ensures n <= Pow2(Height(n))
    ensures Height(n) > 0 ==> Pow2(Height(n) - 1) < n
  {
    if n > 1 {
      HeightIsLog((n + 1) / 2);
    }
  }

  // ---------- proofs ----------

  // The entries for the path from position i of a level to the root.
  function PathOf(level: seq<string>, i: nat, h: Hash): Proof
    requires i < |level|
    decreases |level|
  {
    if |level| == 1 then Proof([], [])
    else
      var rest := PathOf(NextLevel(level, h), i / 2, h);
      Proof([Sibling(level, i)] + rest.siblings, [Side(i)] + rest.directions)
  }

  function Sibling(level: seq<string>, i: nat): string
    requires i < |level|
  {
    if i % 2 == 1 then level[i - 1] else Partner(level, i)
  }

  function Side(i: nat): Direction {
    if i % 2 == 1 then Left else Right
  }

  // directions[i]: anything but "left", a missing entry included, counts as right.
  function IsLeft(p: Proof, i: nat): bool {
    i < |p.directions| && p.directions[i] == Left
  }

  function Combined(computed: string, p: Proof, i: nat): string
    requires i < |p.siblings|
  {
    if IsLeft(p, i) then p.siblings[i] + computed else computed + p.siblings[i]
  }

  function Fold(computed: string, p: Proof, i: nat, h: Hash): string
    requires i <= |p.siblings|
    decreases |p.siblings| - i
  {
    if i == |p.siblings| then computed else Fold(h(Combined(computed, p, i)), p, i + 1, h)
  }

  method VerifyProof(root: string, leaf: string, proof: Proof, h: Hash) returns (ok: bool)
    ensures ok <==> Fold(leaf, proof, 0, h) == root
  {
    var computed := leaf;
    for i := 0 to |proof.siblings|
      invariant Fold(leaf, proof, 0, h) == Fold(computed, proof, i, h)
    {
      var sibling := proof.siblings[i];
      var combined := if IsLeft(proof, i) then sibling + computed else computed + sibling;
      computed := h(combined);
    }
    return computed == root;
  }

  // ---------- the registry functions ----------

  // localeCompare: an order on names.
  type Collation = (string, string) -> bool

  function ByName(le: Collation): (Record, Record) -> bool {
    (a: Record, b: Record) => le(a.name, b.name)
  }

  function LeafOf(h: Hash): Record -> Leaf {
    (r: Record) => Leaf(r.name, HashLeaf(r, h))
  }

  function RecordHash(h: Hash): Record -> string {
    (r: Record) => HashLeaf(r, h)
  }

  function BuildLeaves(records: seq<Record>, le: Collation, h: Hash): (r: seq<Leaf>)
    ensures |r| == |records|
  {
    Map(Sort(records, ByName(le)), LeafOf(h))
  }

  function Hashes(records: seq<Record>, le: Collation, h: Hash): (r: seq<string>)
    ensures |r| == |records|
  {
    Map(Sort(records, ByName(le)), RecordHash(h))
  }

  function MerkleRoot(records: seq<Record>, le: Collation, h: Hash): string {
    if records == [] then h("") else RootOf(Hashes(records, le, h), h)
  }

  // findIndex: the first leaf with the name, or the number of leaves.
  function FindLeaf(leaves: seq<Leaf>, name: string): (i: nat)
    ensures i <= |leaves| && (forall j :: 0 <= j < i ==> leaves[j].name != name)
    ensures i < |leaves| ==> leaves[i].name == name
  {
    if leaves == [] || leaves[0].name == name then 0
    else
      var i := FindLeaf(leaves[1..], name);
      assert forall j :: 0 < j < 1 + i ==> leaves[j] == leaves[1..][j - 1];
      1 + i
  }

  lemma LeafHashes(records: seq<Record>, le: Collation, h: Hash)
    ensures Map(BuildLeaves(records, le, h), (l: Leaf) => l.hash) == Hashes(records, le, h)
    ensures forall i :: 0 <= i < |records| ==> BuildLeaves(records, le, h)[i].hash == Hashes(records, le, h)[i]
  {
  }

  method BuildMerkleRoot(records: seq<Record>, le: Collation, h: Hash) returns (root: string)
    ensures root == MerkleRoot(records, le, h)
  {
    var leaves := BuildLeaves(records, le, h);
    if |leaves| == 0 {
      return h("");
    }
    LeafHashes(records, le, h);
    var tree := BuildTree(Map(leaves, (l: Leaf) => l.hash), h);
    LayersEnd(Hashes(records, le, h), h);
    root := tree[|tree| - 1][0];
  }

  method BuildProof(records: seq<Record>, name: string, le: Collation, h: Hash) returns (r: BuiltProof)
    ensures var hashes, i := Hashes(records, le, h), FindLeaf(BuildLeaves(records, le, h), name);
            && (i < |hashes| ==> r == BuiltProof(hashes[i], PathOf(hashes, i, h), MerkleRoot(records, le, h)))
            && (i == |hashes| ==> r == BuiltProof("", Proof([], []),
                                                  if records == [] then "" else MerkleRoot(records, le, h)))
  {
    var leaves := BuildLeaves(records, le, h);
    ghost var hashes := Hashes(records, le, h);
    LeafHashes(records, le, h);
    var tree := BuildTree(Map(leaves, (l: Leaf) => l.hash), h);
    LayersEnd(hashes, h);
    hide PathOf;
    hide Layers;
    hide RootOf;
    hide NextLevel;
    hide Hashes;
    hide BuildLeaves;
    var root := if |tree[|tree| - 1]| > 0 then tree[|tree| - 1][0] else "";
    var index := FindLeaf(leaves, name);
    if index == |leaves| {
      return BuiltProof("", Proof([], []), root);
    }
    var siblings: seq<string>, directions: seq<Direction> := [], [];
    var idx: nat := index;
    ghost var rest := PathOf(hashes, index, h);
    for level := 0 to |tree| - 1
      invariant idx < |tree[level]| && tree[level..] == Layers(tree[level], h)
      invariant rest == PathOf(tree[level], idx, h)
      invariant PathOf(hashes, index, h) == Proof(siblings + rest.siblings, directions + rest.directions)
    {
      var layer := tree[level];
      TreeRows(tree, level, h);
      PathStep(layer, idx, h);
      var isRight := idx % 2 == 1;
      var pairIndex := if isRight then idx - 1 else idx + 1;
      var pairHash := if pairIndex < |layer| then layer[pairIndex] else layer[idx];
      rest := PathOf(tree[level + 1], idx / 2, h);
      var dir := if isRight then Left else Right;
      ConcatAssociative(siblings, [pairHash], rest.siblings);
      ConcatAssociative(directions, [dir], rest.directions);
      siblings := siblings + [pairHash];
      directions := directions + [dir];
      idx := idx / 2;
    }
    LastPath(tree[|tree| - 1], idx, h);
    assert siblings + [] == siblings && directions + [] == directions;
    return BuiltProof(leaves[index].hash, Proof(siblings, directions), root);
  }

  lemma LastPath(level: seq<string>, k: nat, h: Hash)
    requires |level| == 1 && k < |level|
    ensures PathOf(level, k, h) == Proof([], [])
  {
  }

  lemma TreeRows(tree: seq<seq<string>>, level: nat, h: Hash)
    requires level + 1 < |tree| && tree[level..] == Layers(tree[level], h)
    ensures |tree[level]| > 1 && tree[level + 1] == NextLevel(tree[level], h)
    ensures tree[level + 1..] == Layers(tree[level + 1], h)
  {
    assert tree[level..][1..] == tree[level + 1..];
    assert |tree[level..]| > 1;
  }

  // ---------- completeness ----------

  // p has rest's entries from i on.
  ghost predicate Suffix(p: Proof, i: nat, rest: Proof) {
    i <= |p.siblings| && p.siblings[i..] == rest.siblings
    && i <= |p.directions| && p.directions[i..] == rest.directions
  }

  lemma NextAt(level: seq<string>, k: nat, h: Hash)
    requires |level| > 1 && k < |level|
    ensures k / 2 < |NextLevel(level, h)|
    ensures NextLevel(level, h)[k / 2]
         == h(if Side(k) == Left then Sibling(level, k) + level[k] else level[k] + Sibling(level, k))
  {
    assert k == 2 * (k / 2) + k % 2;
  }

  lemma PathStep(level: seq<string>, k: nat, h: Hash)
    requires |level| > 1 && k < |level|
    ensures k / 2 < |NextLevel(level, h)|
    ensures var path, rest := PathOf(level, k, h), PathOf(NextLevel(level, h), k / 2, h);
            && |path.siblings| == 1 + |rest.siblings| && |path.directions| == 1 + |rest.directions|
            && path.siblings[0] == Sibling(level, k) && path.directions[0] == Side(k)
            && path.siblings[1..] == rest.siblings && path.directions[1..] == rest.directions
            && path.siblings == [Sibling(level, k)] + rest.siblings && path.directions == [Side(k)] + rest.directions
  {
  }

  lemma {:induction false} PathFolds(level: seq<string>, k: nat, p: Proof, i: nat, h: Hash)
    requires k < |level| && Suffix(p, i, PathOf(level, k, h))
    ensures Fold(level[k], p, i, h) == RootOf(level, h)
    ensures |PathOf(level, k, h).siblings| == Height(|level|) == |PathOf(level, k, h).directions|
    decreases |level|
  {
    if |level| > 1 {
      var path := PathOf(level, k, h);
      PathStep(level, k, h);
      NextAt(level, k, h);
      hide PathOf;
      hide NextLevel;
      assert p.siblings[i] == path.siblings[0] && p.directions[i] == path.directions[0];
      assert p.siblings[i + 1..] == path.siblings[1..] && p.directions[i + 1..] == path.directions[1..];
      PathFolds(NextLevel(level, h), k / 2, p, i + 1, h);
    }
  }

  // Every proof built for a present name verifies, against the root of the whole registry, and
  // is as long as the tree is high.
  lemma BuiltProofVerifies(records: seq<Record>, name: string, le: Collation, h: Hash)
    requires exists r :: r in records && r.name == name
    ensures var hashes, i := Hashes(records, le, h), FindLeaf(BuildLeaves(records, le, h), name);
            && i < |hashes|
            && Fold(hashes[i], PathOf(hashes, i, h), 0, h) == MerkleRoot(records, le, h)
            && |PathOf(hashes, i, h).siblings| == Height(|records|)
            && exists r :: r in records && r.name == name && hashes[i] == HashLeaf(r, h)
  {
    var hashes, leaves := Hashes(records, le, h), BuildLeaves(records, le, h);
    var sorted := Sort(records, ByName(le));
    MembersOf(sorted, records);
    var r :| r in records && r.name == name;
    var j :| 0 <= j < |sorted| && sorted[j] == r;
    assert leaves[j].name == name;
    var i := FindLeaf(leaves, name);
    assert sorted[i] in records && sorted[i].name == leaves[i].name;
    PathFolds(hashes, i, PathOf(hashes, i, h), 0, h);
  }

  // ---------- soundness ----------

  // What the verifier hashes from step i on, and what building the tree hashes.
  function VerifierInputs(computed: string, p: Proof, i: nat, h: Hash): seq<string>
    requires i <= |p.siblings|
    decreases |p.siblings| - i
  {
    if i == |p.siblings| then []
    else [Combined(computed, p, i)] + VerifierInputs(h(Combined(computed, p, i)), p, i + 1, h)
  }

  function LevelInputs(level: seq<string>): (r: seq<string>)
    ensures |r| == (|level| + 1) / 2
    ensures forall j :: 0 <= j < |r| ==> r[j] == level[2 * j] + Partner(level, 2 * j)
  {
    seq((|level| + 1) / 2, j requires 0 <= j < (|level| + 1) / 2 => level[2 * j] + Partner(level, 2 * j))
  }

  function TreeInputs(level: seq<string>, h: Hash): seq<string>
    decreases |level|
  {
    if |level| <= 1 then [] else LevelInputs(level) + TreeInputs(NextLevel(level, h), h)
  }

  // No collision between a text of xs and a text of ys.
  ghost predicate NoCollision(h: Hash, xs: seq<string>, ys: seq<string>) {
    forall x, y :: x in xs && y in ys && h(x) == h(y) ==> x == y
  }

  ghost predicate AllDigests(level: seq<string>) {
    forall i :: 0 <= i < |level| ==> |level[i]| == HASH_LENGTH
  }

  // The position the directions name; the partner of an unpaired last node is that node.
  function Position(n: nat, p: Proof, i: nat): (k: nat)
    requires n > 0
    ensures k < n
    decreases n
  {
    if n == 1 then 0
    else
      var q := 2 * Position((n + 1) / 2, p, i + 1) + (if IsLeft(p, i) then 1 else 0);
      if q < n then q else q - 1
  }

  lemma {:induction false} PathVerifiedFrom(level: seq<string>, computed: string, p: Proof, i: nat, h: Hash)
    requires HexDigest(h) && level != [] && AllDigests(level) && |computed| == HASH_LENGTH
    requires i <= |p.siblings| == i + Height(|level|)
    requires Fold(computed, p, i, h) == RootOf(level, h)
    requires NoCollision(h, VerifierInputs(computed, p, i, h), TreeInputs(level, h))
    ensures computed == level[Position(|level|, p, i)]
    ensures p.siblings[i..] == PathOf(level, Position(|level|, p, i), h).siblings
    decreases |level|
  {
    if |level| > 1 {
      hide VerifierInputs;
      hide TreeInputs;
      hide NoCollision;
      hide PathOf;
      hide NextLevel;
      var next := NextLevel(level, h);
      NextDigests(level, h);
      var j := Position(|next|, p, i + 1);
      InputsShrink(level, computed, p, i, h);
      PathVerifiedFrom(next, h(Combined(computed, p, i)), p, i + 1, h);
      TextIsPair(level, computed, p, i, j, h);
      PairPath(level, computed, p, i, j, h);
    }
  }

  lemma NextDigests(level: seq<string>, h: Hash)
    requires HexDigest(h) && |level| > 1
    ensures var next := NextLevel(level, h); next != [] && AllDigests(next) && |next| < |level|
    ensures |NextLevel(level, h)| == (|level| + 1) / 2
  {
  }

  lemma TextIsPair(level: seq<string>, computed: string, p: Proof, i: nat, j: nat, h: Hash)
    requires i < |p.siblings| && j < |NextLevel(level, h)|
    requires NoCollision(h, [Combined(computed, p, i)], LevelInputs(level))
    requires h(Combined(computed, p, i)) == NextLevel(level, h)[j]
    ensures Combined(computed, p, i) == level[2 * j] + Partner(level, 2 * j)
  {
    var text, pair := Combined(computed, p, i), LevelInputs(level)[j];
    assert text in [text] && pair in LevelInputs(level);
  }

  lemma PairPath(level: seq<string>, computed: string, p: Proof, i: nat, j: nat, h: Hash)
    requires |level| > 1 && AllDigests(level) && |computed| == HASH_LENGTH && i < |p.siblings|
    requires j < |NextLevel(level, h)| && j == Position(|NextLevel(level, h)|, p, i + 1)
    requires Combined(computed, p, i) == level[2 * j] + Partner(level, 2 * j)
    requires p.siblings[i + 1..] == PathOf(NextLevel(level, h), j, h).siblings
    ensures computed == level[Position(|level|, p, i)]
    ensures p.siblings[i..] == PathOf(level, Position(|level|, p, i), h).siblings
  {
    hide NextLevel;
    hide PathOf;
    var k := Position(|level|, p, i);
    PathStep(level, k, h);
    if IsLeft(p, i) {
      SameHead(p.siblings[i], computed, level[2 * j], Partner(level, 2 * j));
    } else {
      SameHead(computed, p.siblings[i], level[2 * j], Partner(level, 2 * j));
    }
    assert k / 2 == j;
    assert p.siblings[i..] == [p.siblings[i]] + p.siblings[i + 1..];
  }

  lemma InputsShrink(level: seq<string>, computed: string, p: Proof, i: nat, h: Hash)
    requires |level| > 1 && i < |p.siblings|
    requires NoCollision(h, VerifierInputs(computed, p, i, h), TreeInputs(level, h))
    ensures NoCollision(h, VerifierInputs(h(Combined(computed, p, i)), p, i + 1, h), TreeInputs(NextLevel(level, h), h))
    ensures NoCollision(h, [Combined(computed, p, i)], LevelInputs(level))
  {
  }

  // A proof as long as the tree is high that verifies for a digest proves the leaf at the
  // position its directions name, by that position's own path: unless the verifier and the
  // tree between them hash two different texts to one digest.
  lemma Soundness(records: seq<Record>, le: Collation, leaf: string, p: Proof, h: Hash)
    requires HexDigest(h) && records != [] && |leaf| == HASH_LENGTH
    requires |p.siblings| == Height(|records|)
    requires Fold(leaf, p, 0, h) == MerkleRoot(records, le, h)
    requires var hashes := Hashes(records, le, h); NoCollision(h, VerifierInputs(leaf, p, 0, h), TreeInputs(hashes, h))
    ensures var hashes := Hashes(records, le, h);
            var k := Position(|hashes|, p, 0);
            leaf == hashes[k] && p.siblings == PathOf(hashes, k, h).siblings
    ensures exists r :: r in records && leaf == HashLeaf(r, h)
  {
    hide Fold, RootOf, PathOf, TreeInputs, VerifierInputs, NoCollision, Sort, HashLeaf;
    HashesAreDigests(records, le, h);
    var hashes, sorted := Hashes(records, le, h), Sort(records, ByName(le));
    PathVerifiedFrom(hashes, leaf, p, 0, h);
    MembersOf(sorted, records);
    var k := Position(|hashes|, p, 0);
    assert sorted[k] in records && hashes[k] == HashLeaf(sorted[k], h);
    assert p.siblings[0..] == p.siblings;
  }

  // Of a proof that verifies, the two conditions are exactly what it takes: it proves a leaf by
  // that leaf's own path if and only if what it claims is a digest and it is as long as the tree
  // is high.
  lemma SoundnessExactly(records: seq<Record>, le: Collation, leaf: string, p: Proof, h: Hash)
    requires HexDigest(h) && records != [] && Fold(leaf, p, 0, h) == MerkleRoot(records, le, h)
    requires NoCollision(h, VerifierInputs(leaf, p, 0, h), TreeInputs(Hashes(records, le, h), h))
    ensures (|leaf| == HASH_LENGTH && |p.siblings| == Height(|records|))
       <==> ProvesLeaf(Hashes(records, le, h), leaf, p, h)
  {
    hide Fold, RootOf, PathOf, TreeInputs, VerifierInputs, NoCollision, MerkleRoot, Hashes;
    var hashes := Hashes(records, le, h);
    HashesAreDigests(records, le, h);
    if |leaf| == HASH_LENGTH && |p.siblings| == Height(|records|) {
      Soundness(records, le, leaf, p, h);
      assert Position(|hashes|, p, 0) < |hashes|;
    }
    if ProvesLeaf(hashes, leaf, p, h) {
      var k :| 0 <= k < |hashes| && leaf == hashes[k] && p.siblings == PathOf(hashes, k, h).siblings;
      PathLength(hashes, k, h);
    }
  }

  // leaf is one of the leaves and the siblings are those of its path.
  ghost predicate ProvesLeaf(hashes: seq<string>, leaf: string, p: Proof, h: Hash) {
    exists k :: 0 <= k < |hashes| && leaf == hashes[k] && p.siblings == PathOf(hashes, k, h).siblings
  }

  lemma PathLength(level: seq<string>, k: nat, h: Hash)
    requires k < |level|
    ensures |PathOf(level, k, h).siblings| == Height(|level|)
  {
    hide PathOf;
    var p := PathOf(level, k, h);
    assert p.siblings[0..] == p.siblings && p.directions[0..] == p.directions;
    PathFolds(level, k, p, 0, h);
  }

  // Why the claimed leaf has to be a digest: the texts of two leaves, cut elsewhere, hash alike.
  lemma EmptyLeafVerifies(a: string, b: string, h: Hash)
    requires |a| == |b| == HASH_LENGTH
    ensures Fold("", Proof([a + b], [Left]), 0, h) == RootOf([a, b], h)
    ensures |[a + b]| == Height(|[a, b]|) && "" !in [a, b]
  {
    assert a + b + "" == a + b;
    assert Fold("", Proof([a + b], [Left]), 0, h) == h(a + b);
    assert NextLevel([a, b], h) == [h(a + b)];
  }

  // Why the length has to be the height: every inner node verifies with its own, shorter path.
  lemma InnerNodeVerifies(level: seq<string>, k: nat, h: Hash)
    requires |level| > 1 && k < |NextLevel(level, h)|
    ensures var next := NextLevel(level, h);
            && Fold(next[k], PathOf(next, k, h), 0, h) == RootOf(level, h)
            && |PathOf(next, k, h).siblings| == Height(|level|) - 1
  {
    PathFolds(NextLevel(level, h), k, PathOf(NextLevel(level, h), k, h), 0, h);
  }

  // ---------- commitment ----------

  lemma {:induction false} RootsCommit(a: seq<string>, b: seq<string>, h: Hash)
    requires a != [] && |a| == |b| && AllDigests(a) && AllDigests(b) && HexDigest(h)
    requires NoCollision(h, TreeInputs(a, h), TreeInputs(b, h))
    requires RootOf(a, h) == RootOf(b, h)
    ensures a == b
    decreases |a|
  {
    if |a| > 1 {
      hide TreeInputs, NextLevel, NoCollision, LevelInputs;
      NextDigests(a, h);
      NextDigests(b, h);
      SplitInputs(a, b, h);
      RootsCommit(NextLevel(a, h), NextLevel(b, h), h);
      LevelCommits(a, b, h);
    }
  }

  lemma LevelCommits(a: seq<string>, b: seq<string>, h: Hash)
    requires |a| == |b| > 1 && AllDigests(a) && AllDigests(b)
    requires NoCollision(h, LevelInputs(a), LevelInputs(b)) && NextLevel(a, h) == NextLevel(b, h)
    ensures a == b
  {
    hide NoCollision, AllDigests, NextLevel;
    forall i | 0 <= i < |a| ensures a[i] == b[i] {
      PairCommits(a, b, i / 2, h);
    }
  }

  lemma SplitInputs(a: seq<string>, b: seq<string>, h: Hash)
    requires |a| > 1 && |b| > 1 && NoCollision(h, TreeInputs(a, h), TreeInputs(b, h))
    ensures NoCollision(h, LevelInputs(a), LevelInputs(b))
    ensures NoCollision(h, TreeInputs(NextLevel(a, h), h), TreeInputs(NextLevel(b, h), h))
  {
    hide NextLevel, LevelInputs;
    assert TreeInputs(a, h) == LevelInputs(a) + TreeInputs(NextLevel(a, h), h);
    assert TreeInputs(b, h) == LevelInputs(b) + TreeInputs(NextLevel(b, h), h);
  }

  lemma PairCommits(a: seq<string>, b: seq<string>, j: nat, h: Hash)
    requires |a| == |b| > 1 && AllDigests(a) && AllDigests(b) && j < |LevelInputs(a)|
    requires NoCollision(h, LevelInputs(a), LevelInputs(b)) && NextLevel(a, h) == NextLevel(b, h)
    ensures a[2 * j] == b[2 * j] && (2 * j + 1 < |a| ==> a[2 * j + 1] == b[2 * j + 1])
  {
    var s, t := LevelInputs(a)[j], LevelInputs(b)[j];
    assert s in LevelInputs(a) && t in LevelInputs(b);
    assert h(s) == NextLevel(a, h)[j] == NextLevel(b, h)[j] == h(t);
    SameHead(a[2 * j], Partner(a, 2 * j), b[2 * j], Partner(b, 2 * j));
  }

  // Why the count matters: an odd list and the same list with its last leaf repeated.
  lemma RepeatedLastLeaf(level: seq<string>, h: Hash)
    requires |level| % 2 == 1 && |level| >= 3
    ensures RootOf(level + [level[|level| - 1]], h) == RootOf(level, h)
  {
    hide NextLevel;
    RepeatedNext(level, h);
  }

  lemma RepeatedNext(level: seq<string>, h: Hash)
    requires |level| % 2 == 1
    ensures NextLevel(level + [level[|level| - 1]], h) == NextLevel(level, h)
  {
    var longer := level + [level[|level| - 1]];
    var x, y := NextLevel(longer, h), NextLevel(level, h);
    forall j | 0 <= j < |x| ensures x[j] == y[j] {
      assert longer[2 * j] == level[2 * j];
      assert Partner(longer, 2 * j) == Partner(level, 2 * j);
    }
  }

  ghost predicate RootOrderFree(records: seq<Record>, le: Collation, h: Hash) {
    forall t: seq<Record> :: multiset(t) == multiset(records) ==> MerkleRoot(t, le, h) == MerkleRoot(records, le, h)
  }

  ghost predicate CollisionFreeInAnyOrder(records: seq<Record>, le: Collation, h: Hash) {
    forall t: seq<Record> :: multiset(t) == multiset(records)
      ==> NoCollision(h, TreeInputs(Hashes(t, le, h), h), TreeInputs(Hashes(records, le, h), h))
  }

  lemma ByNamePreorder(le: Collation)
    requires TotalPreorder(le)
    ensures TotalPreorder(ByName(le))
  {
    var order := ByName(le);
    forall a, b ensures order(a, b) || order(b, a) {
      assert le(a.name, b.name) || le(b.name, a.name);
    }
    forall a, b, c | order(a, b) && order(b, c) ensures order(a, c) {
      assert le(a.name, b.name) && le(b.name, c.name);
    }
  }

  lemma HashesAreDigests(records: seq<Record>, le: Collation, h: Hash)
    requires HexDigest(h)
    ensures AllDigests(Hashes(records, le, h))
  {
  }

  lemma SameRootSameHashes(records: seq<Record>, t: seq<Record>, le: Collation, h: Hash)
    requires HexDigest(h) && |t| == |records| && records != []
    requires NoCollision(h, TreeInputs(Hashes(t, le, h), h), TreeInputs(Hashes(records, le, h), h))
    requires MerkleRoot(t, le, h) == MerkleRoot(records, le, h)
    ensures Hashes(t, le, h) == Hashes(records, le, h)
  {
    hide TreeInputs;
    hide Hashes;
    hide RootOf;
    HashesAreDigests(t, le, h);
    HashesAreDigests(records, le, h);
    RootsCommit(Hashes(t, le, h), Hashes(records, le, h), h);
  }

  ghost predicate TiedNamesHashAlike(records: seq<Record>, le: Collation, h: Hash) {
    forall a, b :: a in records && b in records && Tied(a.name, b.name, le) ==> HashLeaf(a, h) == HashLeaf(b, h)
  }

  lemma TiedNames(records: seq<Record>, le: Collation, h: Hash)
    ensures TiesAgree(records, RecordHash(h), ByName(le)) <==> TiedNamesHashAlike(records, le, h)
  {
    var order, f := ByName(le), RecordHash(h);
    forall a, b ensures Tied(a, b, order) <==> Tied(a.name, b.name, le) {
    }
    forall a ensures f(a) == HashLeaf(a, h) {
    }
  }

  // Whatever the hash does, records whose tied names hash alike have one root in every order.
  lemma TiesAlikeOneRoot(records: seq<Record>, le: Collation, h: Hash)
    requires TotalPreorder(le) && TiedNamesHashAlike(records, le, h)
    ensures RootOrderFree(records, le, h)
  {
    hide RootOf;
    hide TotalPreorder;
    ByNamePreorder(le);
    TiedNames(records, le, h);
    OrderFreeExactly(records, RecordHash(h), ByName(le));
    forall t: seq<Record> | multiset(t) == multiset(records)
      ensures MerkleRoot(t, le, h) == MerkleRoot(records, le, h)
    {
      assert Hashes(t, le, h) == Map(Sort(t, ByName(le)), RecordHash(h));
    }
  }

  // The root does not depend on the order of the records exactly when records with names the
  // collation does not tell apart have one leaf hash: always, when the names are distinct.
  lemma RootOrderFreeExactly(records: seq<Record>, le: Collation, h: Hash)
    requires TotalPreorder(le) && HexDigest(h) && records != []
    requires CollisionFreeInAnyOrder(records, le, h)
    ensures RootOrderFree(records, le, h) <==> TiedNamesHashAlike(records, le, h)
  {
    hide RootOf;
    hide TreeInputs;
    hide NoCollision;
    hide TotalPreorder;
    hide HexDigest;
    ByNamePreorder(le);
    OrderFreeExactly(records, RecordHash(h), ByName(le));
    forall t: seq<Record> | multiset(t) == multiset(records)
      ensures MerkleRoot(t, le, h) == MerkleRoot(records, le, h) <==> Hashes(t, le, h) == Hashes(records, le, h)
    {
      MembersOf(t, records);
      if MerkleRoot(t, le, h) == MerkleRoot(records, le, h) {
        SameRootSameHashes(records, t, le, h);
      }
    }
    TiedNames(records, le, h);
    if TiedNamesHashAlike(records, le, h) {
      TiesAlikeOneRoot(records, le, h);
    }
    if RootOrderFree(records, le, h) {
      forall t: seq<Record> | multiset(t) == multiset(records)
        ensures Map(Sort(t, ByName(le)), RecordHash(h)) == Map(Sort(records, ByName(le)), RecordHash(h))
      {
        assert MerkleRoot(t, le, h) == MerkleRoot(records, le, h);
      }
    }
  }

  // ---------- what is hashed ----------

  function LeafText(r: Record): string { r.name + ['\n'] + r.canonical }

  // The leaves are the hashes of name, line end and canonical text, in the order of the names.
  lemma LeavesExactly(records: seq<Record>, le: Collation, h: Hash) returns (s: seq<Record>)
    requires TotalPreorder(le)
    ensures multiset(s) == multiset(records) && |s| == |records|
    ensures forall i, j :: 0 <= i < j < |s| ==> le(s[i].name, s[j].name)
    ensures |Hashes(records, le, h)| == |s|
    ensures forall i :: 0 <= i < |s| ==> Hashes(records, le, h)[i] == h(LeafText(s[i]))
  {
    s := Sort(records, ByName(le));
    ByNamePreorder(le);
    SortSorted(records, ByName(le));
    forall i, j | 0 <= i < j < |s| ensures le(s[i].name, s[j].name) {
      assert ByName(le)(s[i], s[j]);
    }
    forall i | 0 <= i < |s| ensures Hashes(records, le, h)[i] == h(LeafText(s[i])) {
      assert LeafText(s[i]) == s[i].name + "\n" + s[i].canonical;
    }
  }

  // The smallest trees and proofs, written out: the left one first, a lone one with itself.
  lemma SmallTrees(a: string, b: string, c: string, le: Collation, h: Hash)
    ensures MerkleRoot([], le, h) == h("") && RootOf([a], h) == a && RootOf([a, b], h) == h(a + b)
    ensures RootOf([a, b, c], h) == h(h(a + b) + h(c + c))
    ensures Fold(b, Proof([a], [Left]), 0, h) == h(a + b) && Fold(a, Proof([b], [Right]), 0, h) == h(a + b)
    ensures Fold(a, Proof([b], []), 0, h) == h(a + b)
  {
    assert NextLevel([a, b], h) == [h(a + b)];
    assert NextLevel([a, b, c], h) == [h(a + b), h(c + c)];
    assert NextLevel([h(a + b), h(c + c)], h) == [h(h(a + b) + h(c + c))];
  }

  function LeafTexts(records: seq<Record>): set<string> {
    set r | r in records :: LeafText(r)
  }

  // Two registries of one size with one root hold the same records, unless two of the texts
  // hashed for them collide.
  lemma RootsCommitRecords(records: seq<Record>, t: seq<Record>, le: Collation, h: Hash)
    requires HexDigest(h) && |t| == |records| && records != []
    requires forall r :: r in records || r in t ==> '\n' !in r.name
    requires MerkleRoot(t, le, h) == MerkleRoot(records, le, h)
    requires NoCollision(h, TreeInputs(Hashes(t, le, h), h), TreeInputs(Hashes(records, le, h), h))
    requires forall x, y :: x in LeafTexts(records) && y in LeafTexts(t) && h(x) == h(y) ==> x == y
    ensures multiset(t) == multiset(records)
  {
    hide TreeInputs, RootOf;
    SameRootSameHashes(records, t, le, h);
    var x, y := Sort(records, ByName(le)), Sort(t, ByName(le));
    MembersOf(x, records);
    MembersOf(y, t);
    forall i | 0 <= i < |x| ensures x[i] == y[i] {
      assert x[i] in records && y[i] in t;
      assert Hashes(records, le, h)[i] == Hashes(t, le, h)[i];
      assert LeafText(x[i]) == x[i].name + "\n" + x[i].canonical && LeafText(y[i]) == y[i].name + "\n" + y[i].canonical;
      assert LeafText(x[i]) in LeafTexts(records) && LeafText(y[i]) in LeafTexts(t);
      SameBefore(x[i].name, x[i].canonical, y[i].name, y[i].canonical, '\n');
    }
    assert x == y;
  }
}
