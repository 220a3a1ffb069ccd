/**
  Stage 1 of compactor/dedup.py: fact indices are grouped by transitive similarity with a
  union-find that halves paths, and groups over the cap are split into bounded clusters.
  `similar` stands for "cosine at or above the threshold" and is asked only of pairs i < j.
  */
module Clusters {

  const MAX_CLUSTER_SIZE := 4

  type Similar = (nat, nat) -> bool

  // ---------------------------------------------------------------------------------
  // What a group is: chains of similar pairs
  // ---------------------------------------------------------------------------------

  ghost predicate Near(similar: Similar, a: nat, b: nat) {
    if a < b then similar(a, b) else b < a && similar(b, a)
  }

  ghost predicate IsChain(similar: Similar, n: nat, path: seq<nat>) {
    && path != [] && (forall k | 0 <= k < |path| :: path[k] < n)
    && (forall k | 0 < k < |path| :: Near(similar, path[k - 1], path[k]))
  }

  ghost predicate ChainFromTo(similar: Similar, n: nat, path: seq<nat>, a: nat, b: nat) {
    IsChain(similar, n, path) && path[0] == a && path[|path| - 1] == b
  }

  /** Some chain of above-threshold pairs connects the two. */
  ghost predicate Linked(similar: Similar, n: nat, a: nat, b: nat) {
    exists path :: ChainFromTo(similar, n, path, a, b)
  }

  lemma LinkedSelf(similar: Similar, n: nat, a: nat)
    requires a < n
    ensures Linked(similar, n, a, a)
  {
    assert ChainFromTo(similar, n, [a], a, a);
  }

  lemma LinkedPair(similar: Similar, n: nat, a: nat, b: nat)
    requires a < n && b < n && Near(similar, a, b)
    ensures Linked(similar, n, a, b)
  {
    assert ChainFromTo(similar, n, [a, b], a, b);
  }

  lemma LinkedBack(similar: Similar, n: nat, a: nat, b: nat)
    requires Linked(similar, n, a, b)
    ensures Linked(similar, n, b, a)
  {
    var p :| ChainFromTo(similar, n, p, a, b);
    var q := seq(|p|, k requires 0 <= k < |p| => p[|p| - 1 - k]);
    assert ChainFromTo(similar, n, q, b, a);
  }

  lemma LinkedOn(similar: Similar, n: nat, a: nat, b: nat, c: nat)
    requires Linked(similar, n, a, b) && Linked(similar, n, b, c)
    ensures Linked(similar, n, a, c)
  {
    var p :| ChainFromTo(similar, n, p, a, b);
    var q :| ChainFromTo(similar, n, q, b, c);
    assert ChainFromTo(similar, n, p + q[1..], a, c);
  }

  // ---------------------------------------------------------------------------------
  // The parent forest
  // ---------------------------------------------------------------------------------

  /** `depth` decreases along every parent link, so that links lead to a root. */
  ghost predicate Forest(parent: seq<nat>, depth: seq<nat>) {
    && |parent| == |depth|
    && forall x | 0 <= x < |parent| :: parent[x] < |parent| && (parent[x] != x ==> depth[parent[x]] < depth[x])
  }

  ghost function Root(parent: seq<nat>, depth: seq<nat>, x: nat): (r: nat)
    requires Forest(parent, depth) && x < |parent|
    ensures r < |parent| && parent[r] == r
    decreases depth[x]
  {
    if parent[x] == x then x else Root(parent, depth, parent[x])
  }

  lemma {:induction false} HalvingKeepsRoots(parent: seq<nat>, depth: seq<nat>, x: nat, z: nat)
    requires Forest(parent, depth) && x < |parent| && z < |parent|
    ensures var halved := parent[x := parent[parent[x]]];
            Forest(halved, depth) && Root(halved, depth, z) == Root(parent, depth, z)
    decreases depth[z]
  {
    var halved := parent[x := parent[parent[x]]];
    if halved[z] != z {
      HalvingKeepsRoots(parent, depth, x, halved[z]);
    }
  }

  /** The depths after root `ry` has been hung under root `rx`. */
  ghost function Deepened(parent: seq<nat>, depth: seq<nat>, rx: nat, ry: nat): seq<nat>
    requires Forest(parent, depth) && rx < |parent|
  {
    seq(|depth|, z requires 0 <= z < |depth| => if Root(parent, depth, z) == ry then depth[z] + depth[rx] + 1 else depth[z])
  }

  lemma {:induction false} HangingJoinsRoots(parent: seq<nat>, depth: seq<nat>, rx: nat, ry: nat, z: nat)
    requires Forest(parent, depth) && rx < |parent| && ry < |parent| && z < |parent|
    requires parent[rx] == rx && parent[ry] == ry && rx != ry
    ensures var hung, deeper := parent[ry := rx], Deepened(parent, depth, rx, ry);
            && Forest(hung, deeper)
            && Root(hung, deeper, z) == if Root(parent, depth, z) == ry then rx else Root(parent, depth, z)
    decreases depth[z]
  {
    if parent[z] != z {
      HangingJoinsRoots(parent, depth, rx, ry, parent[z]);
    }
  }

  class UnionFind {
    const parent: array<nat>
    ghost var depth: seq<nat>

    ghost predicate Valid() reads this, parent { Forest(parent[..], depth) }

    /** The representative of every element. */
    ghost function Reps(): (r: seq<nat>)
      requires Valid()
      reads this, parent
      ensures |r| == parent.Length
    {
      seq(parent.Length, x requires 0 <= x < parent.Length && Valid() reads this, parent => Root(parent[..], depth, x))
    }

    constructor (n: nat)
      ensures Valid() && fresh(parent) && parent.Length == n
      ensures Reps() == seq(n, x => x)
    {
      parent := new nat[n](x => x);
      depth := seq(n, _ => 0);
      new;
      assert forall x | 0 <= x < n :: parent[..][x] == x;
    }

    method Find(x: nat) returns (r: nat)
      requires Valid() && x < parent.Length
      modifies parent
      ensures Valid() && Reps() == old(Reps()) && r == Reps()[x]
    {
      r := x;
      while parent[r] != r
        invariant Valid() && r < parent.Length
        invariant Reps() == old(Reps()) && Reps()[r] == Reps()[x]
        decreases depth[r]
      {
        ghost var before: seq<nat> := parent[..];
        forall z | 0 <= z < parent.Length ensures
          var halved := before[r := before[before[r]]];
          Forest(halved, depth) && Root(halved, depth, z) == Root(before, depth, z)
        {
          HalvingKeepsRoots(before, depth, r, z);
        }
        parent[r] := parent[parent[r]];
        assert parent[..] == before[r := before[before[r]]];
        r := parent[r];
      }
    }

    method Union(x: nat, y: nat)
      requires Valid() && x < parent.Length && y < parent.Length
      modifies this, parent
      ensures Valid()
      ensures forall z | 0 <= z < parent.Length ::
                Reps()[z] == if old(Reps())[z] == old(Reps())[y] then old(Reps())[x] else old(Reps())[z]
    {
      var rx: nat := Find(x);
      var ry: nat := Find(y);
      if rx != ry {
        ghost var before: seq<nat>, shallow: seq<nat> := parent[..], depth;
        forall z | 0 <= z < parent.Length ensures
          var hung, deeper := before[ry := rx], Deepened(before, shallow, rx, ry);
          && Forest(hung, deeper)
          && Root(hung, deeper, z) == if Root(before, shallow, z) == ry then rx else Root(before, shallow, z)
        {
          HangingJoinsRoots(before, shallow, rx, ry, z);
        }
        parent[ry] := rx;
        depth := Deepened(before, shallow, rx, ry);
        assert parent[..] == before[ry := rx];
      }
    }
  }

  // ---------------------------------------------------------------------------------
  // Uniting every similar pair
  // ---------------------------------------------------------------------------------

  ghost predicate SameOnlyIfLinked(similar: Similar, reps: seq<nat>) {
    forall a, b | 0 <= a < |reps| && 0 <= b < |reps| && reps[a] == reps[b] :: Linked(similar, |reps|, a, b)
  }

  /** Every similar pair before (i, j), in the order of the two loops, is in one class. */
  ghost predicate PairsJoined(similar: Similar, reps: seq<nat>, i: nat, j: nat) {
    forall a, b | 0 <= a < b < |reps| && (a < i || (a == i && b < j)) && similar(a, b) :: reps[a] == reps[b]
  }

  ghost predicate Merged(reps: seq<nat>, reps': seq<nat>, x: nat, y: nat)
    requires x < |reps| && y < |reps|
  {
    |reps'| == |reps| && forall z | 0 <= z < |reps| :: reps'[z] == if reps[z] == reps[y] then reps[x] else reps[z]
  }

  lemma MergeKeepsLinked(similar: Similar, reps: seq<nat>, reps': seq<nat>, x: nat, y: nat)
    requires x < |reps| && y < |reps| && Merged(reps, reps', x, y)
    requires SameOnlyIfLinked(similar, reps) && Near(similar, x, y)
    ensures SameOnlyIfLinked(similar, reps')
  {
    var n := |reps|;
    LinkedPair(similar, n, x, y);
    LinkedBack(similar, n, x, y);
    forall a, b | 0 <= a < n && 0 <= b < n && reps'[a] == reps'[b] ensures Linked(similar, n, a, b) {
      if reps[a] != reps[b] {
        if reps[a] == reps[y] {
          LinkedOn(similar, n, a, y, x);
          LinkedOn(similar, n, a, x, b);
        } else {
          LinkedOn(similar, n, a, x, y);
          LinkedOn(similar, n, a, y, b);
        }
      }
    }
  }

  lemma {:induction false} LinkedImpliesSame(similar: Similar, reps: seq<nat>, path: seq<nat>)
    requires IsChain(similar, |reps|, path) && PairsJoined(similar, reps, |reps|, 0)
    ensures reps[path[0]] == reps[path[|path| - 1]]
  {
    if |path| > 1 {
      var init := path[..|path| - 1];
      assert IsChain(similar, |reps|, init);
      LinkedImpliesSame(similar, reps, init);
      assert Near(similar, path[|path| - 2], path[|path| - 1]);
    }
  }

  lemma PairDone(similar: Similar, reps: seq<nat>, reps': seq<nat>, i: nat, j: nat)
    requires i < j < |reps| && PairsJoined(similar, reps, i, j)
    requires if similar(i, j) then Merged(reps, reps', i, j) else reps' == reps
    ensures PairsJoined(similar, reps', i, j + 1)
  {
  }

  lemma RowDone(similar: Similar, reps: seq<nat>, i: nat)
    requires i < |reps|
    ensures PairsJoined(similar, reps, i, 0) ==> PairsJoined(similar, reps, i, i + 1)
    ensures PairsJoined(similar, reps, i, |reps|) ==> PairsJoined(similar, reps, i + 1, 0)
  {
  }

  lemma LinkedIffSame(similar: Similar, reps: seq<nat>)
    requires SameOnlyIfLinked(similar, reps) && PairsJoined(similar, reps, |reps|, 0)
    ensures forall a, b | 0 <= a < |reps| && 0 <= b < |reps| :: reps[a] == reps[b] <==> Linked(similar, |reps|, a, b)
  {
    forall a, b | 0 <= a < |reps| && 0 <= b < |reps| && Linked(similar, |reps|, a, b) ensures reps[a] == reps[b] {
      var path :| ChainFromTo(similar, |reps|, path, a, b);
      LinkedImpliesSame(similar, reps, path);
    }
  }

  lemma SeparateAtFirst(similar: Similar, n: nat)
    ensures SameOnlyIfLinked(similar, seq(n, x => x)) && PairsJoined(similar, seq(n, x => x), 0, 0)
  {
    forall a: nat | a < n ensures Linked(similar, n, a, a) {
      LinkedSelf(similar, n, a);
    }
  }

  /** The union-find after all pairs: two indices share a class iff a chain connects them. */
  method UniteSimilar(n: nat, similar: Similar) returns (uf: UnionFind)
    ensures fresh(uf) && fresh(uf.parent) && uf.Valid() && uf.parent.Length == n
    ensures forall a, b | 0 <= a < n && 0 <= b < n :: uf.Reps()[a] == uf.Reps()[b] <==> Linked(similar, n, a, b)
  {
    hide SameOnlyIfLinked, PairsJoined, UnionFind.Reps, UnionFind.Valid;
    uf := new UnionFind(n);
    SeparateAtFirst(similar, n);
    for i := 0 to n
      invariant fresh(uf) && fresh(uf.parent) && uf.Valid() && uf.parent.Length == n
      invariant SameOnlyIfLinked(similar, uf.Reps()) && PairsJoined(similar, uf.Reps(), i, 0)
    {
      RowDone(similar, uf.Reps(), i);
      for j := i + 1 to n
        invariant fresh(uf) && fresh(uf.parent) && uf.Valid() && uf.parent.Length == n
        invariant SameOnlyIfLinked(similar, uf.Reps()) && PairsJoined(similar, uf.Reps(), i, j)
      {
        ghost var before := uf.Reps();
        if similar(i, j) {
          uf.Union(i, j);
          MergeKeepsLinked(similar, before, uf.Reps(), i, j);
        }
        PairDone(similar, before, uf.Reps(), i, j);
      }
      RowDone(similar, uf.Reps(), i);
    }
    LinkedIffSame(similar, uf.Reps());
  }

  // ---------------------------------------------------------------------------------
  // Bounded splitting
  // ---------------------------------------------------------------------------------

  /** Full chunks from the front; a remainder of one borrows from the chunk before it. */
  function Split(c: seq<nat>): (chunks: seq<seq<nat>>)
    ensures chunks != []
  {
    if |c| <= MAX_CLUSTER_SIZE then [c]
    else if |c| == MAX_CLUSTER_SIZE + 1 then [c[..MAX_CLUSTER_SIZE - 1], c[MAX_CLUSTER_SIZE - 1..]]
    else [c[..MAX_CLUSTER_SIZE]] + Split(c[MAX_CLUSTER_SIZE..])
  }

  function Flatten(chunks: seq<seq<nat>>): seq<nat> {
    if chunks == [] then [] else chunks[0] + Flatten(chunks[1..])
  }

  lemma {:induction false} FlattenConcat(a: seq<seq<nat>>, b: seq<seq<nat>>)
    ensures Flatten(a + b) == Flatten(a) + Flatten(b)
  {
    if a == [] {
      assert a + b == b;
    } else {
      assert (a + b)[1..] == a[1..] + b;
      FlattenConcat(a[1..], b);
    }
  }

  /** Splitting loses nothing and keeps the order, and every chunk has two to four members. */
  lemma {:induction false} SplitPartitions(c: seq<nat>)
    ensures Flatten(Split(c)) == c
    ensures |c| >= 2 ==> forall k | 0 <= k < |Split(c)| :: 2 <= |Split(c)[k]| <= MAX_CLUSTER_SIZE
  {
    if |c| == MAX_CLUSTER_SIZE + 1 {
      var last := c[MAX_CLUSTER_SIZE - 1..];
      assert Split(c)[1..] == [last];
      assert Flatten([last]) == last;
    } else if |c| > MAX_CLUSTER_SIZE {
      SplitPartitions(c[MAX_CLUSTER_SIZE..]);
      assert Split(c)[1..] == Split(c[MAX_CLUSTER_SIZE..]);
    } else {
      assert [c][1..] == [];
    }
  }

  /** When a group grows at its end, all chunks but the last two stay as they were. */
  lemma {:induction false} SplitIsStable(c: seq<nat>, more: seq<nat>, k: nat)
    requires k + 2 < |Split(c)|
    ensures k < |Split(c + more)| && Split(c + more)[k] == Split(c)[k]
  {
    var d := c + more;
    assert c[MAX_CLUSTER_SIZE..] + more == d[MAX_CLUSTER_SIZE..];
    if k > 0 {
      SplitIsStable(c[MAX_CLUSTER_SIZE..], more, k - 1);
    }
  }

  /** The chunks before the repair of a too-small remainder. */
  function Chunks(c: seq<nat>): seq<seq<nat>> {
    if c == [] then [] else if |c| <= MAX_CLUSTER_SIZE then [c] else [c[..MAX_CLUSTER_SIZE]] + Chunks(c[MAX_CLUSTER_SIZE..])
  }

  function Repaired(out: seq<seq<nat>>): seq<seq<nat>> {
    var m := |out|;
    if m >= 2 && |out[m - 1]| < 2 && |out[m - 2]| >= 2 then
      var short := 2 - |out[m - 1]|;
      out[..m - 2] + [out[m - 2][..|out[m - 2]| - short]] + [out[m - 2][|out[m - 2]| - short..] + out[m - 1]]
    else out
  }

  lemma {:induction false} RepairIsSplit(c: seq<nat>)
    requires |c| > MAX_CLUSTER_SIZE
    ensures Repaired(Chunks(c)) == Split(c)
    ensures var out := Chunks(c); |out| >= 2 && |out[|out| - 2]| == MAX_CLUSTER_SIZE
  {
    var rest := c[MAX_CLUSTER_SIZE..];
    if |rest| > MAX_CLUSTER_SIZE {
      RepairIsSplit(rest);
      var tail := Chunks(rest);
      assert Chunks(c) == [c[..MAX_CLUSTER_SIZE]] + tail;
      assert Chunks(c)[..|tail| - 1] == [c[..MAX_CLUSTER_SIZE]] + tail[..|tail| - 2];
      assert Repaired(Chunks(c)) == [c[..MAX_CLUSTER_SIZE]] + Repaired(tail);
    } else {
      assert Chunks(c) == [c[..MAX_CLUSTER_SIZE], rest];
      assert c[..MAX_CLUSTER_SIZE][MAX_CLUSTER_SIZE - 1..] + rest == c[MAX_CLUSTER_SIZE - 1..];
      assert c[..MAX_CLUSTER_SIZE][..MAX_CLUSTER_SIZE - 1] == c[..MAX_CLUSTER_SIZE - 1];
    }
  }

  lemma NoChunks()
    ensures Chunks([]) == []
  {
  }

  lemma NextChunk(c: seq<nat>, i: nat)
    requires i < |c|
    ensures var end := if i + MAX_CLUSTER_SIZE < |c| then i + MAX_CLUSTER_SIZE else |c|;
            Chunks(c[i..]) == [c[i..end]] + Chunks(c[end..])
  {
    if i + MAX_CLUSTER_SIZE < |c| {
      assert c[i..][..MAX_CLUSTER_SIZE] == c[i..i + MAX_CLUSTER_SIZE];
      assert c[i..][MAX_CLUSTER_SIZE..] == c[i + MAX_CLUSTER_SIZE..];
    } else {
      assert c[|c|..] == [] && c[i..|c|] == c[i..];
    }
  }

  method ChunkCluster(cluster: seq<nat>) returns (out: seq<seq<nat>>)
    ensures out == Chunks(cluster)
  {
    NoChunks();
    hide Chunks;
    var n := |cluster|;
    out := [];
    var i := 0;
    assert cluster[0..] == cluster && [] + Chunks(cluster) == Chunks(cluster);
    while i < n
      invariant i >= 0 && out + Chunks(cluster[if i < n then i else n..]) == Chunks(cluster)
    {
      NextChunk(cluster, i);
      var end := if i + MAX_CLUSTER_SIZE < n then i + MAX_CLUSTER_SIZE else n;
      ChunkMoves(out, cluster[i..end], Chunks(cluster[end..]));
      out := out + [cluster[i..end]];
      i := i + MAX_CLUSTER_SIZE;
    }
    assert cluster[n..] == [] && out + [] == out;
  }

  lemma ChunkMoves(a: seq<seq<nat>>, c: seq<nat>, b: seq<seq<nat>>)
    ensures a + ([c] + b) == (a + [c]) + b
  {}

  /** _split_cluster */
  method SplitCluster(cluster: seq<nat>) returns (out: seq<seq<nat>>)
    ensures out == Split(cluster)
  {
    if |cluster| <= MAX_CLUSTER_SIZE {
      return [cluster];
    }
    out := ChunkCluster(cluster);
    RepairIsSplit(cluster);
    hide Chunks, Split;
    var m := |out|;
    if m >= 2 && |out[m - 1]| < 2 {
      var short := 2 - |out[m - 1]|;
      var lender := out[m - 2];
      out := out[..m - 2] + [lender[..|lender| - short]] + [lender[|lender| - short..] + out[m - 1]];
    }
  }

  // ---------------------------------------------------------------------------------
  // Candidate clusters
  // ---------------------------------------------------------------------------------

  /** The indices below `upto` whose representative is `r`, ascending. */
  ghost function Members(reps: seq<nat>, r: nat, upto: nat): seq<nat>
    requires upto <= |reps|
  {
    if upto == 0 then [] else Members(reps, r, upto - 1) + if reps[upto - 1] == r then [upto - 1] else []
  }

  lemma NoMembersAtAll(reps: seq<nat>, r: nat)
    ensures Members(reps, r, 0) == []
  {}

  lemma CountSnoc(m: seq<nat>, y: nat, x: nat)
    ensures multiset(m + [y])[x] == multiset(m)[x] + if x == y then 1 else 0
  {}

  lemma {:induction false} MemberCount(reps: seq<nat>, r: nat, upto: nat, x: nat)
    requires upto <= |reps|
    ensures multiset(Members(reps, r, upto))[x] == if x < upto && reps[x] == r then 1 else 0
  {
    NoMembersAtAll(reps, r);
    hide Members;
    if upto > 0 {
      MemberCount(reps, r, upto - 1, x);
      MembersStep(reps, r, upto - 1);
      CountSnoc(Members(reps, r, upto - 1), upto - 1, x);
    }
  }

  lemma {:induction false} MembersAscend(reps: seq<nat>, r: nat, upto: nat)
    requires upto <= |reps|
    ensures var m := Members(reps, r, upto); forall a, b | 0 <= a < b < |m| :: m[a] < m[b]
    ensures var m := Members(reps, r, upto); forall k | 0 <= k < |m| :: m[k] < upto
  {
    NoMembersAtAll(reps, r);
    hide Members;
    if upto > 0 {
      MembersAscend(reps, r, upto - 1);
      MembersStep(reps, r, upto - 1);
    }
  }

  lemma MembersAre(reps: seq<nat>, r: nat, upto: nat)
    requires upto <= |reps|
    ensures var m := Members(reps, r, upto);
            && (forall a, b | 0 <= a < b < |m| :: m[a] < m[b])
            && (forall x: nat :: multiset(m)[x] == if x < upto && reps[x] == r then 1 else 0)
            && (forall k | 0 <= k < |m| :: m[k] < upto && reps[m[k]] == r)
  {
    var m := Members(reps, r, upto);
    MembersAscend(reps, r, upto);
    forall x: nat ensures multiset(m)[x] == if x < upto && reps[x] == r then 1 else 0 { MemberCount(reps, r, upto, x); }
    hide Members;
    forall k | 0 <= k < |m| ensures m[k] < upto && reps[m[k]] == r { assert m[k] in multiset(m); }
  }

  /** The dictionary of groups, as its keys in order of insertion and the list under each. */
  ghost predicate GroupsSoFar(reps: seq<nat>, keys: seq<nat>, groups: seq<seq<nat>>, upto: nat)
    requires upto <= |reps|
  {
    && |groups| == |keys|
    && (forall a, b | 0 <= a < b < |keys| :: keys[a] != keys[b])
    && (forall g | 0 <= g < |keys| :: groups[g] == Members(reps, keys[g], upto) && groups[g] != [])
    && (forall x | 0 <= x < upto :: reps[x] in keys)
  }

  lemma MembersStep(reps: seq<nat>, r: nat, i: nat)
    requires i < |reps|
    ensures Members(reps, r, i + 1) == if reps[i] == r then Members(reps, r, i) + [i] else Members(reps, r, i)
  {
  }

  lemma NoMembersYet(reps: seq<nat>, keys: seq<nat>, r: nat, i: nat)
    requires i <= |reps| && r !in keys && forall x | 0 <= x < i :: reps[x] in keys
    ensures Members(reps, r, i) == []
  {
  }

  lemma GroupGrows(reps: seq<nat>, keys: seq<nat>, groups: seq<seq<nat>>, i: nat, g: nat)
    requires i < |reps| && GroupsSoFar(reps, keys, groups, i) && g < |keys| && keys[g] == reps[i]
    ensures GroupsSoFar(reps, keys, groups[g := groups[g] + [i]], i + 1)
  {
    hide Members;
    forall h | 0 <= h < |keys| {
      MembersStep(reps, keys[h], i);
    }
  }

  lemma GroupOpens(reps: seq<nat>, keys: seq<nat>, groups: seq<seq<nat>>, i: nat)
    requires i < |reps| && GroupsSoFar(reps, keys, groups, i) && reps[i] !in keys
    ensures GroupsSoFar(reps, keys + [reps[i]], groups + [[i]], i + 1)
  {
    hide Members;
    var keys', groups' := keys + [reps[i]], groups + [[i]];
    NoMembersYet(reps, keys, reps[i], i);
    forall h | 0 <= h < |keys'| ensures groups'[h] == Members(reps, keys'[h], i + 1) {
      MembersStep(reps, keys'[h], i);
      assert h < |keys| ==> keys[h] in keys;
    }
    forall x | 0 <= x < i + 1 ensures reps[x] in keys' {
      assert keys'[|keys|] == reps[i];
    }
  }

  method GroupByRoot(uf: UnionFind) returns (groups: seq<seq<nat>>, ghost keys: seq<nat>)
    requires uf.Valid()
    modifies uf.parent
    ensures uf.Valid() && uf.Reps() == old(uf.Reps())
    ensures GroupsSoFar(uf.Reps(), keys, groups, uf.parent.Length)
  {
    ghost var reps := uf.Reps();
    var roots: seq<nat> := [];
    groups := [];
    assert GroupsSoFar(reps, roots, groups, 0);
    hide UnionFind.Reps, UnionFind.Valid, GroupsSoFar;
    for i := 0 to uf.parent.Length
      invariant uf.Valid() && uf.Reps() == reps && GroupsSoFar(reps, roots, groups, i)
      invariant |roots| == |groups|
    {
      var r := uf.Find(i);
      var g := IndexOf(roots, r);
      if g < |roots| {
        GroupGrows(reps, roots, groups, i, g);
        groups := groups[g := groups[g] + [i]];
      } else {
        GroupOpens(reps, roots, groups, i);
        roots := roots + [r];
        groups := groups + [[i]];
      }
    }
    keys := roots;
  }

  method IndexOf(keys: seq<nat>, key: nat) returns (g: nat)
    ensures g <= |keys| && (forall k | 0 <= k < g :: keys[k] != key) && (g < |keys| ==> keys[g] == key)
  {
    g := 0;
    while g < |keys| && keys[g] != key
      invariant g <= |keys| && forall k | 0 <= k < g :: keys[k] != key
    {
      g := g + 1;
    }
  }

  /** The index has a partner: a chain connects it to another index. */
  ghost predicate Grouped(similar: Similar, n: nat, x: nat) {
    x < n && exists y: nat :: y < n && y != x && Linked(similar, n, x, y)
  }

  /** Representatives agree exactly within components. */
  ghost predicate RepsMatch(similar: Similar, reps: seq<nat>) {
    forall a, b | 0 <= a < |reps| && 0 <= b < |reps| :: reps[a] == reps[b] <==> Linked(similar, |reps|, a, b)
  }

  lemma GroupedIffTwo(similar: Similar, reps: seq<nat>, x: nat)
    requires x < |reps|
    requires RepsMatch(similar, reps)
    ensures Grouped(similar, |reps|, x) <==> |Members(reps, reps[x], |reps|)| >= 2
  {
    var m := Members(reps, reps[x], |reps|);
    MembersAre(reps, reps[x], |reps|);
    hide Linked, Members;
    assert x in multiset(m);
    if |m| >= 2 {
      var y := if m[0] == x then m[1] else m[0];
      assert y != x && reps[y] == reps[x];
    }
    if Grouped(similar, |reps|, x) {
      var y: nat :| y < |reps| && y != x && Linked(similar, |reps|, x, y);
      assert y in multiset(m);
      var i :| 0 <= i < |m| && m[i] == x;
      var j :| 0 <= j < |m| && m[j] == y;
    }
  }

  /** Every index with a partner is in exactly one cluster, once, and no other index is in any. */
  ghost predicate CoveredOnce(similar: Similar, n: nat, clusters: seq<seq<nat>>) {
    forall x: nat :: multiset(Flatten(clusters))[x] == if Grouped(similar, n, x) then 1 else 0
  }

  ghost predicate Bounded(clusters: seq<seq<nat>>) {
    forall k | 0 <= k < |clusters| :: 2 <= |clusters[k]| <= MAX_CLUSTER_SIZE
  }

  ghost predicate WithinComponents(similar: Similar, n: nat, clusters: seq<seq<nat>>) {
    forall k, a, b | 0 <= k < |clusters| && 0 <= a < |clusters[k]| && 0 <= b < |clusters[k]| ::
      Linked(similar, n, clusters[k][a], clusters[k][b])
  }

  /** What the clusters made of the first `g` groups hold. */
  ghost predicate ClustersSoFar(similar: Similar, reps: seq<nat>, keys: seq<nat>, clusters: seq<seq<nat>>, g: nat)
    requires g <= |keys|
  {
    && Bounded(clusters) && WithinComponents(similar, |reps|, clusters)
    && forall x: nat :: multiset(Flatten(clusters))[x] == TimesClustered(reps, keys, g, x)
  }

  /** A chunk of a split group has only members of the group. */
  lemma {:induction false} InFlatten(chunks: seq<seq<nat>>, k: nat, a: nat)
    requires k < |chunks| && a < |chunks[k]|
    ensures chunks[k][a] in Flatten(chunks)
  {
    if k > 0 {
      InFlatten(chunks[1..], k - 1, a);
    }
  }

  /** How often the first `g` groups put `x` in a cluster. */
  ghost function TimesClustered(reps: seq<nat>, keys: seq<nat>, g: nat, x: nat): nat
    requires g <= |keys|
  {
    if x < |reps| && reps[x] in keys[..g] && |Members(reps, reps[x], |reps|)| >= 2 then 1 else 0
  }

  lemma OneGroupMore(reps: seq<nat>, keys: seq<nat>, g: nat, x: nat)
    requires g < |keys| && forall a, b | 0 <= a < b < |keys| :: keys[a] != keys[b]
    ensures var m := Members(reps, keys[g], |reps|);
            TimesClustered(reps, keys, g + 1, x) == TimesClustered(reps, keys, g, x) + if |m| >= 2 then multiset(m)[x] else 0
  {
    MembersAre(reps, keys[g], |reps|);
    hide Members;
    assert keys[..g + 1] == keys[..g] + [keys[g]];
  }

  lemma SplitStaysWithin(similar: Similar, reps: seq<nat>, r: nat)
    requires |Members(reps, r, |reps|)| >= 2
    requires RepsMatch(similar, reps)
    ensures Bounded(Split(Members(reps, r, |reps|)))
    ensures WithinComponents(similar, |reps|, Split(Members(reps, r, |reps|)))
  {
    MembersAre(reps, r, |reps|);
    hide Linked, Members, Split, Flatten;
    var m := Members(reps, r, |reps|);
    var chunks := Split(m);
    SplitPartitions(m);
    forall k, a, b | 0 <= k < |chunks| && 0 <= a < |chunks[k]| && 0 <= b < |chunks[k]|
      ensures Linked(similar, |reps|, chunks[k][a], chunks[k][b])
    {
      InFlatten(chunks, k, a);
      InFlatten(chunks, k, b);
    }
  }

  lemma ClustersGrow(similar: Similar, reps: seq<nat>, keys: seq<nat>, clusters: seq<seq<nat>>, g: nat)
    requires g < |keys| && ClustersSoFar(similar, reps, keys, clusters, g)
    requires forall a, b | 0 <= a < b < |keys| :: keys[a] != keys[b]
    requires RepsMatch(similar, reps)
    ensures var m := Members(reps, keys[g], |reps|);
            ClustersSoFar(similar, reps, keys, if |m| < 2 then clusters else clusters + Split(m), g + 1)
  {
    hide Linked, Members, Split, TimesClustered, RepsMatch, Flatten;
    var m := Members(reps, keys[g], |reps|);
    forall x: nat {
      OneGroupMore(reps, keys, g, x);
    }
    if |m| >= 2 {
      SplitPartitions(m);
      SplitStaysWithin(similar, reps, keys[g]);
      FlattenConcat(clusters, Split(m));
    }
  }

  /** find_candidate_clusters: each cluster has two to four indices, all in one component of
      similarity, and every index of a component of two or more is in exactly one cluster. */
  method FindCandidateClusters(n: nat, embedded: bool, similar: Similar) returns (clusters: seq<seq<nat>>)
    ensures !embedded ==> clusters == []
    ensures embedded ==> CoveredOnce(similar, n, clusters)
    ensures Bounded(clusters) && WithinComponents(similar, n, clusters)
  {
    clusters := [];
    if !embedded {
      return;
    }
    var uf := UniteSimilar(n, similar);
    var groups;
    ghost var keys;
    groups, keys := GroupByRoot(uf);
    ghost var reps := uf.Reps();
    NothingClustered(similar, reps, keys);
    assert RepsMatch(similar, reps);
    hide Linked, Members, ClustersSoFar, RepsMatch, UnionFind.Valid, UnionFind.Reps;
    for g := 0 to |groups|
      invariant ClustersSoFar(similar, reps, keys, clusters, g)
    {
      ClustersGrow(similar, reps, keys, clusters, g);
      if |groups[g]| < 2 {
        continue;
      }
      var chunks := SplitCluster(groups[g]);
      clusters := clusters + chunks;
    }
    AllClustered(similar, reps, keys, clusters);
  }

  lemma NothingClustered(similar: Similar, reps: seq<nat>, keys: seq<nat>)
    ensures ClustersSoFar(similar, reps, keys, [], 0)
  {
  }

  lemma AllClustered(similar: Similar, reps: seq<nat>, keys: seq<nat>, clusters: seq<seq<nat>>)
    requires ClustersSoFar(similar, reps, keys, clusters, |keys|)
    requires forall x | 0 <= x < |reps| :: reps[x] in keys
    requires RepsMatch(similar, reps)
    ensures CoveredOnce(similar, |reps|, clusters) && Bounded(clusters) && WithinComponents(similar, |reps|, clusters)
  {
    hide Linked, Members, RepsMatch;
    assert keys[..|keys|] == keys;
    forall x: nat ensures TimesClustered(reps, keys, |keys|, x) == if Grouped(similar, |reps|, x) then 1 else 0 {
      if x < |reps| {
        GroupedIffTwo(similar, reps, x);
      }
    }
  }
}
