/**
  The merge pass of compactor/dedup.py: every candidate cluster is put to the model unless
  the memo knows it was refused or the call budget is spent, and each merge replaces the
  facts of its cluster by one. `oracle` is the model's verdict on a multiset of texts, when it
  answers; `failing` are the positions of the clusters whose call fails in this pass.
  */
module DedupPass {
  import Clusters
  import opened FactRows
  import opened Options
  import opened RefusalMemo

  type Cluster = seq<nat>

  // ---------------------------------------------------------------------------------
  // What a set of merges makes of a list of facts
  // ---------------------------------------------------------------------------------

  predicate InRange(c: Cluster, n: nat) { forall k | 0 <= k < |c| :: c[k] < n }

  predicate AllInRange(clusters: seq<Cluster>, n: nat) { forall k | 0 <= k < |clusters| :: InRange(clusters[k], n) }

  function Pick(facts: seq<Fact>, c: Cluster): (r: seq<Fact>)
    requires InRange(c, |facts|)
    ensures |r| == |c| && forall k | 0 <= k < |c| :: r[k] == facts[c[k]]
  {
    seq(|c|, k requires 0 <= k < |c| => facts[c[k]])
  }

  function ClusterKey(facts: seq<Fact>): Key {
    if facts == [] then multiset{} else multiset{facts[0].text} + ClusterKey(facts[1..])
  }

  /** Two lists of facts carry the same texts, each as often: one is the other rearranged. */
  ghost predicate SameTexts(a: seq<Fact>, b: seq<Fact>) { exists at: seq<nat> :: Rearranges(at, a, b) }

  ghost predicate Rearranges(at: seq<nat>, a: seq<Fact>, b: seq<Fact>) {
    && |at| == |a| == |b|
    && (forall k | 0 <= k < |at| :: at[k] < |b| && a[k].text == b[at[k]].text)
    && (forall j, k | 0 <= j < k < |at| :: at[j] != at[k])
  }

  /** The key counts, for every text, the facts that carry it. */
  lemma {:induction false} KeyCounts(facts: seq<Fact>, t: string)
    ensures ClusterKey(facts)[t] == |set k: nat | k < |facts| && facts[k].text == t|
  {
    if facts != [] {
      KeyCounts(facts[..|facts| - 1], t);
      KeyWithout(facts, |facts| - 1);
      assert facts[..|facts| - 1] + facts[|facts|..] == facts[..|facts| - 1];
      CountSnoc(facts, t);
      hide ClusterKey;
    }
  }

  lemma CountSnoc(facts: seq<Fact>, t: string)
    requires facts != []
    ensures var n := |facts| - 1;
            |set k: nat | k < |facts| && facts[k].text == t|
            == |set k: nat | k < n && facts[..n][k].text == t| + if facts[n].text == t then 1 else 0
  {
    var n: nat := |facts| - 1;
    var all, some := set k: nat | k < |facts| && facts[k].text == t, set k: nat | k < n && facts[..n][k].text == t;
    assert all == some + if facts[n].text == t then {n} else {};
    assert n !in some;
  }

  lemma {:induction false} KeyWithout(facts: seq<Fact>, i: nat)
    requires i < |facts|
    ensures ClusterKey(facts) == ClusterKey(facts[..i] + facts[i + 1..]) + multiset{facts[i].text}
  {
    if i == 0 {
      assert facts[..0] + facts[1..] == facts[1..];
    } else {
      var rest := facts[..i] + facts[i + 1..];
      assert rest[1..] == facts[1..][..i - 1] + facts[1..][i..];
      KeyWithout(facts[1..], i - 1);
    }
  }

  lemma {:induction false} KeyTexts(facts: seq<Fact>)
    ensures forall t :: t in ClusterKey(facts) <==> t in Texts(facts)
    ensures |ClusterKey(facts)| == |facts|
  {
    if facts != [] {
      KeyTexts(facts[1..]);
      assert facts == [facts[0]] + facts[1..];
      TextsConcat([facts[0]], facts[1..]);
    }
  }

  /** Clusters have one key exactly when their texts are the same up to order. */
  lemma SameKeyExactly(a: seq<Fact>, b: seq<Fact>)
    ensures ClusterKey(a) == ClusterKey(b) <==> SameTexts(a, b)
  {
    if ClusterKey(a) == ClusterKey(b) {
      var at := Rearranged(a, b);
    }
    if SameTexts(a, b) {
      var at :| Rearranges(at, a, b);
      RearrangedKey(at, a, b);
    }
  }

  lemma {:induction false} Rearranged(a: seq<Fact>, b: seq<Fact>) returns (at: seq<nat>)
    requires ClusterKey(a) == ClusterKey(b)
    ensures Rearranges(at, a, b)
    decreases |a|
  {
    hide Rearranges, ClusterKey;
    KeyTexts(a);
    KeyTexts(b);
    if a == [] {
      at := [];
      NothingRearranged(a, b);
    } else {
      var n: nat := |a| - 1;
      assert a[n].text in Texts(b);
      var j: nat :| j < |b| && b[j].text == a[n].text;
      KeyWithout(a, n);
      KeyWithout(b, j);
      assert a[..n] + a[n + 1..] == a[..n];
      SameWithout(ClusterKey(a[..n]), ClusterKey(b[..j] + b[j + 1..]), a[n].text);
      var before := Rearranged(a[..n], b[..j] + b[j + 1..]);
      at := Shifted(before, a, b, j);
    }
  }

  lemma NothingRearranged(a: seq<Fact>, b: seq<Fact>)
    requires a == [] && b == []
    ensures Rearranges([], a, b)
  {}

  lemma SameWithout(a: Key, b: Key, t: string)
    requires a + multiset{t} == b + multiset{t}
    ensures a == b
  {
    forall u ensures a[u] == b[u] { assert (a + multiset{t})[u] == (b + multiset{t})[u]; }
  }

  lemma Shifted(before: seq<nat>, a: seq<Fact>, b: seq<Fact>, j: nat) returns (at: seq<nat>)
    requires a != [] && j < |b| && b[j].text == a[|a| - 1].text
    requires Rearranges(before, a[..|a| - 1], b[..j] + b[j + 1..])
    ensures Rearranges(at, a, b)
  {
    var n: nat := |a| - 1;
    at := seq(n + 1, k requires 0 <= k <= n => if k == n then j else if before[k] < j then before[k] else before[k] + 1);
    var rest := b[..j] + b[j + 1..];
    forall k | 0 <= k < |at| ensures at[k] < |b| && a[k].text == b[at[k]].text {
      assert k < n ==> rest[before[k]] == b[at[k]] && a[..n][k] == a[k];
    }
  }

  lemma {:induction false} RearrangedKey(at: seq<nat>, a: seq<Fact>, b: seq<Fact>)
    requires Rearranges(at, a, b)
    ensures ClusterKey(a) == ClusterKey(b)
    decreases |a|
  {
    if a != [] {
      var n: nat := |a| - 1;
      var j := at[n];
      var before := Unshifted(at, a, b);
      KeyWithout(a, n);
      KeyWithout(b, j);
      assert a[..n] + a[n + 1..] == a[..n];
      RearrangedKey(before, a[..n], b[..j] + b[j + 1..]);
    }
  }

  lemma Unshifted(at: seq<nat>, a: seq<Fact>, b: seq<Fact>) returns (before: seq<nat>)
    requires a != [] && Rearranges(at, a, b)
    ensures at[|a| - 1] < |b|
    ensures Rearranges(before, a[..|a| - 1], b[..at[|a| - 1]] + b[at[|a| - 1] + 1..])
  {
    var n: nat := |a| - 1;
    var j := at[n];
    before := seq(n, k requires 0 <= k < n => if at[k] < j then at[k] else at[k] - 1);
    var rest := b[..j] + b[j + 1..];
    forall k | 0 <= k < n ensures before[k] < |rest| && a[..n][k].text == rest[before[k]].text {
      assert rest[before[k]] == b[at[k]];
    }
  }

  function MinTurn(facts: seq<Fact>): (m: int)
    requires facts != []
    ensures (forall k | 0 <= k < |facts| :: m <= facts[k].addedTurn) && exists k :: 0 <= k < |facts| && facts[k].addedTurn == m
  {
    if |facts| == 1 then facts[0].addedTurn else
      var m := MinTurn(facts[1..]);
      if facts[0].addedTurn < m then facts[0].addedTurn else m
  }

  function MaxUsed(facts: seq<Fact>): (m: int)
    requires facts != []
    ensures (forall k | 0 <= k < |facts| :: facts[k].lastUsed <= m) && exists k :: 0 <= k < |facts| && facts[k].lastUsed == m
  {
    if |facts| == 1 then facts[0].lastUsed else
      var m := MaxUsed(facts[1..]);
      if facts[0].lastUsed > m then facts[0].lastUsed else m
  }

  /** _merge_metadata */
  function MergeMetadata(facts: seq<Fact>, text: string): Fact
    requires facts != []
  {
    Fact(text, MinTurn(facts), MaxUsed(facts), exists k :: 0 <= k < |facts| && facts[k].pin)
  }

  /** The merged fact is pinned if any member is and only then, as old as the oldest and as fresh as the freshest. */
  lemma MergedFactIs(facts: seq<Fact>, text: string)
    requires facts != []
    ensures var m := MergeMetadata(facts, text);
            && m.text == text && (m.pin <==> exists f :: f in facts && f.pin)
            && (forall f | f in facts :: m.addedTurn <= f.addedTurn && f.lastUsed <= m.lastUsed)
            && (exists f :: f in facts && f.addedTurn == m.addedTurn)
            && (exists f :: f in facts && f.lastUsed == m.lastUsed)
  {
    var a :| 0 <= a < |facts| && facts[a].addedTurn == MinTurn(facts);
    var b :| 0 <= b < |facts| && facts[b].lastUsed == MaxUsed(facts);
    assert facts[a] in facts && facts[b] in facts;
    hide MinTurn, MaxUsed;
  }

  /** What stage 1 hands over: bounded clusters of valid indices, no index in two of them. */
  ghost predicate Candidates(n: nat, clusters: seq<Cluster>) {
    && Clusters.Bounded(clusters) && AllInRange(clusters, n)
    && forall x: nat :: multiset(Clusters.Flatten(clusters))[x] <= 1
  }

  function Verdict(facts: seq<Fact>, c: Cluster, oracle: Oracle): Verdict
    requires InRange(c, |facts|)
  {
    oracle(ClusterKey(Pick(facts, c)))
  }

  /** What the pass is told of a cluster: a failed call is an error, whatever the model would have said. */
  function Reply(facts: seq<Fact>, c: Cluster, oracle: Oracle, fails: bool): Verdict
    requires InRange(c, |facts|)
  {
    if fails then Refused(Error) else Verdict(facts, c, oracle)
  }

  /** The clusters that the model is asked about and accepts, in the order they are offered. */
  function Accepted(facts: seq<Fact>, clusters: seq<Cluster>, oracle: Oracle, failing: set<nat>): (r: seq<Cluster>)
    requires AllInRange(clusters, |facts|)
  {
    if clusters == [] then [] else
      var k := |clusters| - 1;
      var c, before := clusters[k], Accepted(facts, clusters[..k], oracle, failing);
      if Reply(facts, c, oracle, k in failing).Merged? then before + [c] else before
  }

  function Elements(s: seq<nat>): set<nat> { set x | x in s }

  function Gone(merges: seq<Cluster>): set<nat> { Elements(Clusters.Flatten(merges)) }

  /** The facts whose index is in no merged cluster, in their order. */
  function Kept(facts: seq<Fact>, gone: set<nat>): seq<Fact> {
    if facts == [] then [] else
      Kept(facts[..|facts| - 1], gone) + if |facts| - 1 in gone then [] else [facts[|facts| - 1]]
  }

  /** Clusters that the model accepts. */
  ghost predicate ValidMerges(facts: seq<Fact>, merges: seq<Cluster>, oracle: Oracle) {
    && AllInRange(merges, |facts|) && Clusters.Bounded(merges)
    && forall k | 0 <= k < |merges| :: Verdict(facts, merges[k], oracle).Merged?
  }

  ghost function Canonical(facts: seq<Fact>, merges: seq<Cluster>, oracle: Oracle): (r: seq<Fact>)
    requires ValidMerges(facts, merges, oracle)
    ensures |r| == |merges|
  {
    seq(|merges|, k requires 0 <= k < |merges| => MergeMetadata(Pick(facts, merges[k]), Verdict(facts, merges[k], oracle).text))
  }

  /** The list after the given merges. Untouched, not even sorted, when there are none. */
  ghost function Outcome(facts: seq<Fact>, merges: seq<Cluster>, oracle: Oracle): seq<Fact>
    requires ValidMerges(facts, merges, oracle)
  {
    if merges == [] then facts else SortByTurn(Kept(facts, Gone(merges)) + Canonical(facts, merges, oracle))
  }

  // ---------------------------------------------------------------------------------
  // The pass
  // ---------------------------------------------------------------------------------

  lemma {:induction false} AcceptedIs(facts: seq<Fact>, clusters: seq<Cluster>, oracle: Oracle, failing: set<nat>)
    requires AllInRange(clusters, |facts|)
    ensures forall c | c in Accepted(facts, clusters, oracle, failing) ::
              c in clusters && InRange(c, |facts|) && Verdict(facts, c, oracle).Merged?
  {
    if clusters != [] {
      AcceptedIs(facts, clusters[..|clusters| - 1], oracle, failing);
      assert clusters == clusters[..|clusters| - 1] + [clusters[|clusters| - 1]];
    }
  }

  function Min(a: nat, b: nat): nat { if a < b then a else b }

  /** `a` is `b` with some elements left out. */
  ghost predicate IsSubList<T>(a: seq<T>, b: seq<T>) {
    a == [] || (b != [] && (IsSubList(a, b[..|b| - 1]) || (a[|a| - 1] == b[|b| - 1] && IsSubList(a[..|a| - 1], b[..|b| - 1]))))
  }

  lemma {:induction false} SubListSelf<T>(a: seq<T>)
    ensures IsSubList(a, a)
  {
    if a != [] {
      SubListSelf(a[..|a| - 1]);
    }
  }

  lemma SubListGrows<T>(a: seq<T>, b: seq<T>, x: T)
    requires IsSubList(a, b)
    ensures IsSubList(a, b + [x]) && IsSubList(a + [x], b + [x])
  {
    assert (b + [x])[..|b|] == b && (a + [x])[..|a|] == a;
  }

  /** Where the pass stands after `i` clusters. */
  ghost predicate Progress(facts: seq<Fact>, clusters: seq<Cluster>, oracle: Oracle,
                           failing: set<nat>, cap: nat, memoised: bool,
                           i: nat, calls: nat, merges: seq<Cluster>)
    requires AllInRange(clusters, |facts|)
  {
    && i <= |clusters| && calls <= cap && |merges| <= calls <= i
    && IsSubList(merges, Accepted(facts, clusters[..i], oracle, failing))
    && IsSubList(Accepted(facts, clusters[..Min(cap, i)], oracle, failing), merges)
    && (!memoised ==> calls == Min(cap, i))
    && (!memoised || cap >= |clusters| ==> merges == Accepted(facts, clusters[..Min(cap, i)], oracle, failing))
    && ValidMerges(facts, merges, oracle)
  }

  lemma {:induction false} AcceptedStep(facts: seq<Fact>, clusters: seq<Cluster>, oracle: Oracle, failing: set<nat>, i: nat)
    requires AllInRange(clusters, |facts|) && i < |clusters|
    ensures Accepted(facts, clusters[..i + 1], oracle, failing)
            == var r := Accepted(facts, clusters[..i], oracle, failing);
               if Reply(facts, clusters[i], oracle, i in failing).Merged? then r + [clusters[i]] else r
  {
    assert clusters[..i + 1][..i] == clusters[..i];
  }

  /** A cluster that is refused, or known to be, changes nothing but perhaps the call count. */
  lemma ProgressRefused(facts: seq<Fact>, clusters: seq<Cluster>, oracle: Oracle,
                        failing: set<nat>, cap: nat, memoised: bool, i: nat,
                        calls: nat, merges: seq<Cluster>, calls': nat)
    requires AllInRange(clusters, |facts|) && i < |clusters|
    requires Progress(facts, clusters, oracle, failing, cap, memoised, i, calls, merges)
    requires Reply(facts, clusters[i], oracle, i in failing).Refused?
    requires (memoised && calls' == calls) || (calls < cap && calls' == calls + 1)
    ensures Progress(facts, clusters, oracle, failing, cap, memoised, i + 1, calls', merges)
  {
    hide IsSubList, Accepted;
    AcceptedStep(facts, clusters, oracle, failing, i);
  }

  /** A cluster met with the budget spent waits; a pass without a memo would not have got here. */
  lemma ProgressDeferred(facts: seq<Fact>, clusters: seq<Cluster>, oracle: Oracle,
                         failing: set<nat>, cap: nat, memoised: bool, i: nat,
                         calls: nat, merges: seq<Cluster>)
    requires AllInRange(clusters, |facts|) && i < |clusters|
    requires Progress(facts, clusters, oracle, failing, cap, memoised, i, calls, merges) && calls >= cap
    ensures Progress(facts, clusters, oracle, failing, cap, memoised, i + 1, calls, merges)
  {
    hide IsSubList, Accepted;
    AcceptedStep(facts, clusters, oracle, failing, i);
    SubListGrows(merges, Accepted(facts, clusters[..i], oracle, failing), clusters[i]);
  }

  lemma ProgressMerged(facts: seq<Fact>, clusters: seq<Cluster>, oracle: Oracle,
                       failing: set<nat>, cap: nat, memoised: bool, i: nat,
                       calls: nat, merges: seq<Cluster>)
    requires AllInRange(clusters, |facts|) && Clusters.Bounded(clusters) && i < |clusters|
    requires Progress(facts, clusters, oracle, failing, cap, memoised, i, calls, merges) && calls < cap
    requires Reply(facts, clusters[i], oracle, i in failing).Merged?
    ensures Progress(facts, clusters, oracle, failing, cap, memoised, i + 1, calls + 1, merges + [clusters[i]])
    ensures ValidMerges(facts, merges + [clusters[i]], oracle)
  {
    hide IsSubList, Accepted;
    AcceptedStep(facts, clusters, oracle, failing, i);
    SubListGrows(merges, Accepted(facts, clusters[..i], oracle, failing), clusters[i]);
    SubListGrows(Accepted(facts, clusters[..Min(cap, i)], oracle, failing), merges, clusters[i]);
  }

  lemma {:induction false} FlattenSnoc(merges: seq<Cluster>, c: Cluster)
    ensures Clusters.Flatten(merges + [c]) == Clusters.Flatten(merges) + c
  {
    Clusters.FlattenConcat(merges, [c]);
    assert [c][1..] == [];
  }

  lemma ProgressStarts(facts: seq<Fact>, clusters: seq<Cluster>, oracle: Oracle, failing: set<nat>, cap: nat, memoised: bool)
    requires AllInRange(clusters, |facts|)
    ensures Progress(facts, clusters, oracle, failing, cap, memoised, 0, 0, [])
    ensures ValidMerges(facts, [], oracle) && Canonical(facts, [], oracle) == [] && Gone([]) == {}
  {
    assert clusters[..0] == [];
  }

  lemma {:induction false} ProgressEnds(facts: seq<Fact>, clusters: seq<Cluster>, oracle: Oracle,
                     failing: set<nat>, cap: nat, memoised: bool, calls: nat,
                     merges: seq<Cluster>)
    requires AllInRange(clusters, |facts|)
    requires Progress(facts, clusters, oracle, failing, cap, memoised, |clusters|, calls, merges)
    ensures calls <= cap && |merges| <= calls && ValidMerges(facts, merges, oracle)
    ensures IsSubList(merges, Accepted(facts, clusters, oracle, failing))
    ensures IsSubList(Accepted(facts, clusters[..Min(cap, |clusters|)], oracle, failing), merges)
    ensures !memoised || cap >= |clusters| ==> merges == Accepted(facts, clusters[..Min(cap, |clusters|)], oracle, failing)
  {
    assert clusters[..|clusters|] == clusters;
  }

  lemma MergesGrow(facts: seq<Fact>, merges: seq<Cluster>, c: Cluster, oracle: Oracle)
    requires ValidMerges(facts, merges, oracle) && ValidMerges(facts, merges + [c], oracle)
    ensures InRange(c, |facts|) && |c| >= 2 && Verdict(facts, c, oracle).Merged?
    ensures Canonical(facts, merges + [c], oracle)
         == Canonical(facts, merges, oracle) + [MergeMetadata(Pick(facts, c), Verdict(facts, c, oracle).text)]
    ensures Gone(merges + [c]) == Gone(merges) + Elements(c) && Elements(c) != {}
  {
    FlattenSnoc(merges, c);
    assert (merges + [c])[|merges|] == c;
    assert c[0] in Elements(c);
  }

  // ---------------------------------------------------------------------------------
  // Which clusters the model is asked about
  // ---------------------------------------------------------------------------------

  datatype Pass = Pass(facts: seq<Fact>, clusters: seq<Cluster>, conv: Option<string>, failing: set<nat>, cap: nat) {
    predicate InRange() { AllInRange(clusters, |facts|) }
  }

  function KeyAt(p: Pass, k: nat): Key
    requires p.InRange() && k < |p.clusters|
  {
    ClusterKey(Pick(p.facts, p.clusters[k]))
  }

  function AllKeys(p: Pass): set<Key>
    requires p.InRange()
  {
    set k | 0 <= k < |p.clusters| :: KeyAt(p, k)
  }

  /** The call for the cluster gets a refusal that is worth keeping. */
  predicate Teaches(p: Pass, oracle: Oracle, k: nat)
    requires p.InRange() && k < |p.clusters|
  {
    var reply := Reply(p.facts, p.clusters[k], oracle, k in p.failing);
    reply.Refused? && Memoisable(reply.reason)
  }

  ghost predicate Positions(p: Pass, asked: set<nat>) { p.InRange() && forall k | k in asked :: k < |p.clusters| }

  function Earlier(asked: set<nat>, k: nat): set<nat> { set j | j in asked && j < k }

  /** The keys of the calls that taught the memo something. */
  function Taught(p: Pass, oracle: Oracle, asked: set<nat>): set<Key>
    requires Positions(p, asked)
  {
    set k | k in asked && Teaches(p, oracle, k) :: KeyAt(p, k)
  }

  /** When the pass comes to the cluster, its refusal was known at the start or has been learnt since. */
  predicate Knows(p: Pass, oracle: Oracle, start: set<Key>, asked: set<nat>, k: nat)
    requires Positions(p, asked) && k < |p.clusters|
  {
    p.conv.Some? && KeyAt(p, k) in start + Taught(p, oracle, Earlier(asked, k))
  }

  /** All that the pass could learn fits beside what is known. */
  predicate Roomy(p: Pass, start: set<Key>)
    requires p.InRange()
  {
    |start + AllKeys(p)| <= MAX_CLUSTERS_PER_CONV
  }

  /** Of the first `i` clusters, those are asked about that are met with budget left and not known. What
      is known can have been forgotten again, and is then asked again, only where there is not room for all. */
  ghost predicate Asks(p: Pass, oracle: Oracle, start: set<Key>, i: nat, asked: set<nat>) {
    && p.InRange() && i <= |p.clusters| && (forall k | k in asked :: k < i)
    && (forall k {:trigger Knows(p, oracle, start, asked, k)} | 0 <= k < i ::
          && (k in asked ==> |Earlier(asked, k)| < p.cap && (Roomy(p, start) ==> !Knows(p, oracle, start, asked, k)))
          && (k !in asked ==> Knows(p, oracle, start, asked, k) || |Earlier(asked, k)| >= p.cap))
  }

  /** What the memo knows of the conversation after these calls. */
  ghost predicate Learns(p: Pass, oracle: Oracle, start: set<Key>, asked: set<nat>, known: set<Key>)
    requires Positions(p, asked)
  {
    if p.conv.None? then known == {} else
      known <= start + Taught(p, oracle, asked) && (Roomy(p, start) ==> known == start + Taught(p, oracle, asked))
  }

  /** What the reply to one question makes of the keys known. */
  ghost predicate Noted(known: set<Key>, now: set<Key>, conv: Option<string>, key: Key, teaches: bool) {
    if conv.None? || !teaches then now == known else
      now <= known + {key} && (|known| < MAX_CLUSTERS_PER_CONV ==> now == known + {key})
  }

  /** Where the calls of the pass stand after `i` clusters. */
  ghost predicate AskedSoFar(p: Pass, oracle: Oracle, start: set<Key>, known: set<Key>, i: nat, calls: nat,
                             asked: set<nat>)
  {
    Asks(p, oracle, start, i, asked) && calls == |asked| <= p.cap && Learns(p, oracle, start, asked, known)
  }

  lemma EarlierIs(asked: set<nat>, i: nat)
    requires forall k | k in asked :: k < i
    ensures Earlier(asked, i) == asked && |asked + {i}| == |asked| + 1
    ensures forall k: nat | k <= i :: Earlier(asked + {i}, k) == Earlier(asked, k)
  {}

  lemma AsksNothing(p: Pass, oracle: Oracle, start: set<Key>)
    requires p.InRange() && (p.conv.None? ==> start == {})
    ensures AskedSoFar(p, oracle, start, start, 0, 0, {})
  {
    assert Taught(p, oracle, {}) == {};
  }

  lemma PassedOver(p: Pass, oracle: Oracle, start: set<Key>, known: set<Key>, i: nat, calls: nat, asked: set<nat>)
    requires AskedSoFar(p, oracle, start, known, i, calls, asked) && i < |p.clusters|
    requires (p.conv.Some? && KeyAt(p, i) in known) || calls >= p.cap
    ensures AskedSoFar(p, oracle, start, known, i + 1, calls, asked)
  {
    hide Taught, Roomy, KeyAt, Earlier;
    EarlierIs(asked, i);
    assert Knows(p, oracle, start, asked, i) || |asked| >= p.cap;
    hide Knows;
  }

  lemma AskedNext(p: Pass, oracle: Oracle, start: set<Key>, known: set<Key>, i: nat, asked: set<nat>)
    requires Asks(p, oracle, start, i, asked) && Learns(p, oracle, start, asked, known) && i < |p.clusters|
    requires !(p.conv.Some? && KeyAt(p, i) in known) && |asked| < p.cap
    ensures Asks(p, oracle, start, i + 1, asked + {i}) && |asked + {i}| == |asked| + 1
  {
    hide Taught, Roomy, KeyAt, Earlier;
    var more := asked + {i};
    EarlierIs(asked, i);
    assert Roomy(p, start) ==> !Knows(p, oracle, start, asked, i);
    forall k: nat | k <= i ensures Knows(p, oracle, start, more, k) == Knows(p, oracle, start, asked, k) {
      assert Earlier(more, k) == Earlier(asked, k);
    }
    hide Knows;
  }

  lemma TaughtBy(p: Pass, oracle: Oracle, asked: set<nat>, i: nat)
    requires Positions(p, asked) && i < |p.clusters|
    ensures Taught(p, oracle, asked + {i})
         == Taught(p, oracle, asked) + if Teaches(p, oracle, i) then {KeyAt(p, i)} else {}
    ensures Taught(p, oracle, asked) <= AllKeys(p) && KeyAt(p, i) in AllKeys(p)
  {
    hide Teaches, KeyAt;
  }

  lemma LearntNext(p: Pass, oracle: Oracle, start: set<Key>, known: set<Key>, now: set<Key>, i: nat, asked: set<nat>)
    requires Positions(p, asked) && Learns(p, oracle, start, asked, known) && i < |p.clusters|
    requires KeyAt(p, i) !in known && Noted(known, now, p.conv, KeyAt(p, i), Teaches(p, oracle, i))
    ensures Learns(p, oracle, start, asked + {i}, now)
  {
    hide Taught, KeyAt, Teaches, AllKeys;
    TaughtBy(p, oracle, asked, i);
    if p.conv.Some? && Roomy(p, start) {
      SubsetSize(known + {KeyAt(p, i)}, start + AllKeys(p));
    }
  }

  /** A call, and what the memo makes of it. */
  lemma CallMade(p: Pass, oracle: Oracle, start: set<Key>, known: set<Key>, now: set<Key>, i: nat, calls: nat,
                 asked: set<nat>)
    requires AskedSoFar(p, oracle, start, known, i, calls, asked) && i < |p.clusters| && calls < p.cap
    requires KeyAt(p, i) !in known && Noted(known, now, p.conv, KeyAt(p, i), Teaches(p, oracle, i))
    ensures AskedSoFar(p, oracle, start, now, i + 1, calls + 1, asked + {i})
  {
    AskedNext(p, oracle, start, known, i, asked);
    LearntNext(p, oracle, start, known, now, i, asked);
    hide Learns, Knows, Earlier, Teaches, KeyAt, Roomy;
  }

  lemma NothingKnown(book: Book, conv: Option<string>)
    ensures conv.None? ==> KnownKeys(book, conv) == {}
  {}

  lemma NothingNoted(known: set<Key>, conv: Option<string>, key: Key)
    ensures Noted(known, known, conv, key, false)
  {}

  lemma ReplyTeaches(p: Pass, oracle: Oracle, i: nat)
    requires p.InRange() && i < |p.clusters|
    ensures InRange(p.clusters[i], |p.facts|) && KeyAt(p, i) == ClusterKey(Pick(p.facts, p.clusters[i]))
    ensures var verdict := if i in p.failing then Refused(Error) else oracle(KeyAt(p, i));
            && verdict == Reply(p.facts, p.clusters[i], oracle, i in p.failing)
            && (verdict.Merged? ==> Verdict(p.facts, p.clusters[i], oracle) == verdict)
            && (Teaches(p, oracle, i) <==> verdict.Refused? && Memoisable(verdict.reason))
  {}

  lemma SubsetSize<T>(a: set<T>, b: set<T>)
    requires a <= b
    ensures |a| <= |b|
  {
    assert b == a + (b - a);
  }

  // ---------------------------------------------------------------------------------
  // The loop
  // ---------------------------------------------------------------------------------

  /** A cluster that the memo knows is one that the model would refuse again. */
  method KnownRefusal(conv: Option<string>, key: Key, memo: Memo, oracle: Oracle) returns (known: bool)
    requires memo.Valid() && memo.Sound(oracle)
    modifies memo
    ensures memo.Valid() && memo.Sound(oracle)
    ensures known ==> conv.Some? && oracle(key).Refused?
    ensures known <==> key in old(KnownKeys(memo.convs, conv))
    ensures KnownKeys(memo.convs, conv) == old(KnownKeys(memo.convs, conv))
  {
    var reason := memo.Get(conv, key);
    known := reason.Some?;
  }

  /** The model's refusal is worth keeping, the failure of a call is not. */
  method Remember(conv: Option<string>, key: Key, reason: Reason, memo: Memo, oracle: Oracle)
    requires memo.Valid() && memo.Sound(oracle) && (reason == Error || oracle(key) == Refused(reason))
    modifies memo
    ensures memo.Valid() && memo.Sound(oracle)
    ensures Noted(old(KnownKeys(memo.convs, conv)), KnownKeys(memo.convs, conv), conv, key, Memoisable(reason))
  {
    if Memoisable(reason) {
      memo.Record(conv, key, reason);
    }
  }

  lemma CandidatesAre(n: nat, clusters: seq<Cluster>)
    requires Candidates(n, clusters)
    ensures AllInRange(clusters, n) && Clusters.Bounded(clusters)
    ensures forall k | 0 <= k < |clusters| :: InRange(clusters[k], n)
  {}

  /** Where the merges of the pass stand after `i` clusters. */
  ghost predicate MergedSoFar(p: Pass, oracle: Oracle, i: nat, calls: nat, merges: seq<Cluster>,
                              merged: seq<Fact>, toRemove: set<nat>)
  {
    && p.InRange() && Progress(p.facts, p.clusters, oracle, p.failing, p.cap, p.conv.Some?, i, calls, merges)
    && ValidMerges(p.facts, merges, oracle)
    && merged == Canonical(p.facts, merges, oracle) && toRemove == Gone(merges) && (merges != [] ==> toRemove != {})
  }

  lemma NothingMerged(p: Pass, oracle: Oracle)
    requires p.InRange()
    ensures MergedSoFar(p, oracle, 0, 0, [], [], {})
  {
    ProgressStarts(p.facts, p.clusters, oracle, p.failing, p.cap, p.conv.Some?);
  }

  /** A cluster that is known to be refused, or is met with the budget spent. */
  lemma NotMerged(p: Pass, oracle: Oracle, i: nat, calls: nat, merges: seq<Cluster>, merged: seq<Fact>, toRemove: set<nat>)
    requires MergedSoFar(p, oracle, i, calls, merges, merged, toRemove) && i < |p.clusters|
    requires calls >= p.cap || (p.conv.Some? && oracle(KeyAt(p, i)).Refused?)
    ensures MergedSoFar(p, oracle, i + 1, calls, merges, merged, toRemove)
  {
    ReplyTeaches(p, oracle, i);
    hide Progress, ValidMerges, Canonical, Gone;
    if calls >= p.cap {
      ProgressDeferred(p.facts, p.clusters, oracle, p.failing, p.cap, p.conv.Some?, i, calls, merges);
    } else {
      ProgressRefused(p.facts, p.clusters, oracle, p.failing, p.cap, true, i, calls, merges, calls);
    }
  }

  lemma CallRefused(p: Pass, oracle: Oracle, i: nat, calls: nat, merges: seq<Cluster>, merged: seq<Fact>, toRemove: set<nat>)
    requires MergedSoFar(p, oracle, i, calls, merges, merged, toRemove) && i < |p.clusters| && calls < p.cap
    requires Reply(p.facts, p.clusters[i], oracle, i in p.failing).Refused?
    ensures MergedSoFar(p, oracle, i + 1, calls + 1, merges, merged, toRemove)
  {
    hide Progress, ValidMerges, Canonical, Gone;
    ProgressRefused(p.facts, p.clusters, oracle, p.failing, p.cap, p.conv.Some?, i, calls, merges, calls + 1);
  }

  lemma CallMerged(p: Pass, oracle: Oracle, i: nat, calls: nat, merges: seq<Cluster>, merged: seq<Fact>, toRemove: set<nat>)
    requires MergedSoFar(p, oracle, i, calls, merges, merged, toRemove) && i < |p.clusters| && calls < p.cap
    requires Clusters.Bounded(p.clusters) && Reply(p.facts, p.clusters[i], oracle, i in p.failing).Merged?
    ensures var c, text := p.clusters[i], Reply(p.facts, p.clusters[i], oracle, i in p.failing).text;
            && InRange(c, |p.facts|) && |c| >= 2
            && MergedSoFar(p, oracle, i + 1, calls + 1, merges + [c], merged + [MergeMetadata(Pick(p.facts, c), text)],
                           toRemove + Elements(c))
  {
    hide Progress, ValidMerges, Canonical, Gone, MergeMetadata, Elements;
    ProgressMerged(p.facts, p.clusters, oracle, p.failing, p.cap, p.conv.Some?, i, calls, merges);
    MergesGrow(p.facts, merges, p.clusters[i], oracle);
  }

  /** Which calls a pass makes, and what the memo knows after it. */
  ghost predicate AskedOf(p: Pass, oracle: Oracle, start: set<Key>, known: set<Key>, calls: nat, asked: set<nat>) {
    AskedSoFar(p, oracle, start, known, |p.clusters|, calls, asked)
  }

  /** The loop of the pass: which clusters are merged, and into what. */
  method AskEach(facts: seq<Fact>, clusters: seq<Cluster>, conv: Option<string>, memo: Memo, oracle: Oracle,
                 failing: set<nat>, cap: nat)
    returns (toRemove: set<nat>, merged: seq<Fact>, calls: nat, ghost merges: seq<Cluster>, ghost asked: set<nat>)
    requires Candidates(|facts|, clusters) && memo.Valid() && memo.Sound(oracle)
    modifies memo
    ensures memo.Valid() && memo.Sound(oracle)
    ensures AllInRange(clusters, |facts|)
    ensures MergedSoFar(Pass(facts, clusters, conv, failing, cap), oracle, |clusters|, calls, merges, merged, toRemove)
    ensures AskedOf(Pass(facts, clusters, conv, failing, cap), oracle, old(KnownKeys(memo.convs, conv)),
                    KnownKeys(memo.convs, conv), calls, asked)
  {
    hide Candidates, MergedSoFar, AllInRange, Clusters.Bounded, Memo.Valid, Memo.Sound, AskedSoFar, Teaches, KeyAt;
    hide KnownKeys, Noted, ClusterKey, Memoisable, Reply, Verdict, Elements, MergeMetadata;
    CandidatesAre(|facts|, clusters);
    toRemove, merged, calls, merges, asked := {}, [], 0, [], {};
    ghost var p, start := Pass(facts, clusters, conv, failing, cap), KnownKeys(memo.convs, conv);
    NothingKnown(memo.convs, conv);
    AsksNothing(p, oracle, start);
    NothingMerged(p, oracle);
    for i := 0 to |clusters|
      invariant memo.Valid() && memo.Sound(oracle)
      invariant MergedSoFar(p, oracle, i, calls, merges, merged, toRemove)
      invariant AskedSoFar(p, oracle, start, KnownKeys(memo.convs, conv), i, calls, asked)
    {
      var c := clusters[i];
      var key := ClusterKey(Pick(facts, c));
      ghost var before := KnownKeys(memo.convs, conv);
      ReplyTeaches(p, oracle, i);
      var known := KnownRefusal(conv, key, memo, oracle);
      if known || calls >= cap {
        PassedOver(p, oracle, start, before, i, calls, asked);
        NotMerged(p, oracle, i, calls, merges, merged, toRemove);
      }
      if known {
        continue;
      }
      if calls >= cap {
        continue;
      }
      var verdict := if i in failing then Refused(Error) else oracle(key);
      if verdict.Merged? {
        CallMerged(p, oracle, i, calls, merges, merged, toRemove);
        NothingNoted(before, conv, key);
        merged := merged + [MergeMetadata(Pick(facts, c), verdict.text)];
        toRemove := toRemove + Elements(c);
        merges := merges + [c];
      } else {
        CallRefused(p, oracle, i, calls, merges, merged, toRemove);
        Remember(conv, key, verdict.reason, memo, oracle);
      }
      CallMade(p, oracle, start, before, KnownKeys(memo.convs, conv), i, calls, asked);
      calls, asked := calls + 1, asked + {i};
    }
  }

  /** _dedup_pass. Whatever the memo holds, it never stops a merge; it only saves calls. */
  method MergePass(facts: seq<Fact>, clusters: seq<Cluster>, conv: Option<string>, memo: Memo, oracle: Oracle,
                   failing: set<nat>, cap: nat)
    returns (result: seq<Fact>, removed: int, calls: nat, ghost merges: seq<Cluster>, ghost asked: set<nat>)
    requires Candidates(|facts|, clusters) && memo.Valid() && memo.Sound(oracle)
    modifies memo
    ensures memo.Valid() && memo.Sound(oracle)
    ensures calls <= cap && |merges| <= calls
    // merges is a sub-list of what the model accepts ...
    ensures IsSubList(merges, Accepted(facts, clusters, oracle, failing))
    // ... with everything a pass without a memo would have merged under the same cap ...
    ensures IsSubList(Accepted(facts, clusters[..Min(cap, |clusters|)], oracle, failing), merges)
    // ... which is exactly what it merges when it has no memo, or no cap in its way.
    ensures conv.None? || cap >= |clusters| ==> merges == Accepted(facts, clusters[..Min(cap, |clusters|)], oracle, failing)
    ensures ValidMerges(facts, merges, oracle)
    ensures result == Outcome(facts, merges, oracle) && removed == |facts| - |result|
    // The calls: what the memo knows is not asked again while there is room to keep it.
    ensures AskedOf(Pass(facts, clusters, conv, failing, cap), oracle, old(KnownKeys(memo.convs, conv)),
                    KnownKeys(memo.convs, conv), calls, asked)
  {
    var toRemove, merged;
    toRemove, merged, calls, merges, asked := AskEach(facts, clusters, conv, memo, oracle, failing, cap);
    ProgressEnds(facts, clusters, oracle, failing, cap, conv.Some?, calls, merges);
    hide Progress, IsSubList, Accepted, ValidMerges, Canonical, Memo.Valid, Memo.Sound;
    if toRemove == {} {
      return facts, 0, calls, merges, asked;
    }
    result := SortByTurn(Kept(facts, toRemove) + merged);
    removed := |facts| - |result|;
  }

  // ---------------------------------------------------------------------------------
  // Accounting for every fact
  // ---------------------------------------------------------------------------------

  function Saved(merges: seq<Cluster>): int {
    if merges == [] then 0 else |merges[0]| - 1 + Saved(merges[1..])
  }

  lemma {:induction false} SavedIs(merges: seq<Cluster>)
    ensures Saved(merges) == |Clusters.Flatten(merges)| - |merges|
    ensures Clusters.Bounded(merges) ==> |merges| <= Saved(merges) <= 3 * |merges|
  {
    if merges != [] {
      SavedIs(merges[1..]);
    }
  }

  lemma {:induction false} DistinctCount(s: seq<nat>)
    requires forall x: nat :: multiset(s)[x] <= 1
    ensures |Elements(s)| == |s|
  {
    if s != [] {
      var init: seq<nat>, last: nat := s[..|s| - 1], s[|s| - 1];
      assert s == init + [last];
      forall x: nat ensures multiset(init)[x] <= 1 {
        assert multiset(s)[x] == multiset(init)[x] + multiset{last}[x];
      }
      DistinctCount(init);
      assert multiset(s)[last] == multiset(init)[last] + 1;
      assert last !in init && Elements(s) == Elements(init) + {last};
    }
  }

  lemma {:induction false} KeptCount(facts: seq<Fact>, gone: set<nat>)
    requires forall x | x in gone :: x < |facts|
    ensures |Kept(facts, gone)| == |facts| - |gone|
  {
    if facts == [] {
      assert gone == {};
    } else {
      var n: nat := |facts| - 1;
      var init := facts[..n];
      KeptStable(init, gone, n);
      KeptCount(init, gone - {n});
    }
  }

  /** An index beyond the list makes no difference to what is kept. */
  lemma {:induction false} KeptStable(facts: seq<Fact>, gone: set<nat>, n: nat)
    requires |facts| <= n
    ensures Kept(facts, gone) == Kept(facts, gone - {n})
  {
    if facts != [] {
      KeptStable(facts[..|facts| - 1], gone, n);
    }
  }

  lemma {:induction false} KeptHolds(facts: seq<Fact>, gone: set<nat>)
    ensures forall i: nat | i < |facts| && i !in gone :: facts[i] in Kept(facts, gone)
    ensures forall f | f in Kept(facts, gone) :: f in facts
  {
    if facts != [] {
      KeptHolds(facts[..|facts| - 1], gone);
    }
  }

  /** What is kept stands as it stood: each fact outside the merged clusters once, in its order. */
  lemma {:induction false} KeptStands(facts: seq<Fact>, gone: set<nat>) returns (at: seq<nat>)
    ensures StandsAt(Kept(facts, gone), facts, at)
    ensures forall i: nat | i < |facts| :: i in at <==> i !in gone
  {
    if facts == [] {
      at := [];
    } else {
      var init, last := facts[..|facts| - 1], facts[|facts| - 1];
      at := KeptStands(init, gone);
      StandsSnoc(Kept(init, gone), init, at, last);
      assert facts == init + [last];
      assert Kept(init, gone) + [] == Kept(init, gone);
      if |init| !in gone { at := at + [|init|]; }
    }
  }

  lemma {:induction false} SubListFlatten(a: seq<Cluster>, b: seq<Cluster>)
    requires IsSubList(a, b)
    ensures multiset(Clusters.Flatten(a)) <= multiset(Clusters.Flatten(b))
    ensures forall c | c in a :: c in b
    decreases |b|
  {
    if a != [] {
      var b', y := b[..|b| - 1], b[|b| - 1];
      assert b == b' + [y];
      FlattenSnoc(b', y);
      if IsSubList(a, b') {
        SubListFlatten(a, b');
      } else {
        assert a == a[..|a| - 1] + [y];
        FlattenSnoc(a[..|a| - 1], y);
        SubListFlatten(a[..|a| - 1], b');
      }
    }
  }

  lemma {:induction false} AcceptedIsSubList(facts: seq<Fact>, clusters: seq<Cluster>, oracle: Oracle, failing: set<nat>)
    requires AllInRange(clusters, |facts|)
    ensures IsSubList(Accepted(facts, clusters, oracle, failing), clusters)
  {
    if clusters != [] {
      var init := clusters[..|clusters| - 1];
      AcceptedIsSubList(facts, init, oracle, failing);
      SubListGrows(Accepted(facts, init, oracle, failing), init, clusters[|clusters| - 1]);
      assert clusters == init + [clusters[|clusters| - 1]];
    }
  }

  /** The merged clusters are still disjoint. */
  lemma MergesAreCandidates(facts: seq<Fact>, clusters: seq<Cluster>, merges: seq<Cluster>, oracle: Oracle, failing: set<nat>)
    requires Candidates(|facts|, clusters) && ValidMerges(facts, merges, oracle)
    requires IsSubList(merges, Accepted(facts, clusters, oracle, failing))
    ensures Candidates(|facts|, merges)
  {
    SubListFlatten(merges, Accepted(facts, clusters, oracle, failing));
    AcceptedIsSubList(facts, clusters, oracle, failing);
    SubListFlatten(Accepted(facts, clusters, oracle, failing), clusters);
    forall x: nat ensures multiset(Clusters.Flatten(merges))[x] <= 1 {
      assert multiset(Clusters.Flatten(merges))[x] <= multiset(Clusters.Flatten(clusters))[x];
    }
  }

  lemma {:induction false} FlattenInRange(merges: seq<Cluster>, n: nat)
    requires AllInRange(merges, n)
    ensures forall x | x in Clusters.Flatten(merges) :: x < n
  {
    if merges != [] {
      assert InRange(merges[0], n);
      assert forall k | 0 <= k < |merges[1..]| :: InRange(merges[1..][k], n) by {
        forall k | 0 <= k < |merges[1..]| ensures InRange(merges[1..][k], n) {
          assert InRange(merges[k + 1], n);
        }
      }
      FlattenInRange(merges[1..], n);
    }
  }

  lemma {:induction false} KeptAll(facts: seq<Fact>)
    ensures Kept(facts, {}) == facts
  {
    if facts != [] {
      KeptAll(facts[..|facts| - 1]);
    }
  }

  lemma OutcomeHolds(facts: seq<Fact>, merges: seq<Cluster>, oracle: Oracle)
    requires ValidMerges(facts, merges, oracle)
    ensures multiset(Outcome(facts, merges, oracle)) == multiset(Kept(facts, Gone(merges))) + multiset(Canonical(facts, merges, oracle))
    ensures |Outcome(facts, merges, oracle)| == |Kept(facts, Gone(merges))| + |merges|
    ensures forall g :: g in Outcome(facts, merges, oracle) <==> g in Kept(facts, Gone(merges)) || g in Canonical(facts, merges, oracle)
  {
    hide Kept, MergeMetadata, Verdict, ValidMerges;
    if merges == [] {
      KeptAll(facts);
      assert Gone(merges) == {};
    }
    SameMembers(Outcome(facts, merges, oracle), Kept(facts, Gone(merges)) + Canonical(facts, merges, oracle));
  }

  lemma SameMembers(a: seq<Fact>, b: seq<Fact>)
    requires multiset(a) == multiset(b)
    ensures forall g :: g in a <==> g in b
  {
    forall g ensures g in a <==> g in b {
      assert g in multiset(a) <==> g in multiset(b);
    }
  }

  /** What a pass removes is one less than each merged cluster, at most three a call. */
  lemma RemovedIsSaved(facts: seq<Fact>, merges: seq<Cluster>, oracle: Oracle)
    requires Candidates(|facts|, merges) && ValidMerges(facts, merges, oracle)
    ensures |facts| - |Outcome(facts, merges, oracle)| == Saved(merges) <= 3 * |merges|
  {
    hide Outcome, Kept, Canonical, ValidMerges;
    SavedIs(merges);
    DistinctCount(Clusters.Flatten(merges));
    FlattenInRange(merges, |facts|);
    KeptCount(facts, Gone(merges));
    OutcomeHolds(facts, merges, oracle);
  }

  /** The index is in one of the clusters, and no other. */
  lemma {:induction false} InOneCluster(merges: seq<Cluster>, x: nat)
    requires forall y: nat :: multiset(Clusters.Flatten(merges))[y] <= 1
    requires x in Clusters.Flatten(merges)
    ensures exists k :: 0 <= k < |merges| && x in merges[k]
    ensures forall k, j | 0 <= k < |merges| && 0 <= j < |merges| && x in merges[k] && x in merges[j] :: k == j
  {
    var rest := merges[1..];
    assert Clusters.Flatten(merges) == merges[0] + Clusters.Flatten(rest);
    forall y: nat ensures multiset(Clusters.Flatten(rest))[y] <= 1 && multiset(merges[0])[y] + multiset(Clusters.Flatten(rest))[y] <= 1 {
      assert multiset(Clusters.Flatten(merges))[y] == multiset(merges[0])[y] + multiset(Clusters.Flatten(rest))[y];
    }
    assert multiset(merges[0])[x] + multiset(Clusters.Flatten(rest))[x] <= 1;
    if x in Clusters.Flatten(rest) {
      InOneCluster(rest, x);
      assert x !in merges[0];
    } else {
      forall k | 0 < k < |merges| && x in merges[k] ensures false {
        var a :| 0 <= a < |merges[k]| && merges[k][a] == x;
        Clusters.InFlatten(rest, k - 1, a);
      }
    }
  }

  /** The merged fact stands for the input fact: no later, no staler, and pinned if it was. */
  predicate Covers(m: Fact, f: Fact) {
    m.addedTurn <= f.addedTurn && f.lastUsed <= m.lastUsed && (f.pin ==> m.pin)
  }

  /** Every input fact is unchanged in the output, or its index is in exactly one merged cluster
      whose canonical fact is in the output and covers it; and nothing else is in the output. */
  lemma EveryFactAccountedFor(facts: seq<Fact>, merges: seq<Cluster>, oracle: Oracle, i: nat)
    requires Candidates(|facts|, merges) && ValidMerges(facts, merges, oracle) && i < |facts|
    ensures i !in Gone(merges) ==> facts[i] in Outcome(facts, merges, oracle)
    ensures i in Gone(merges) ==>
              exists k :: && 0 <= k < |merges| && i in merges[k]
                          && (forall j | 0 <= j < |merges| && i in merges[j] :: j == k)
                          && Canonical(facts, merges, oracle)[k] in Outcome(facts, merges, oracle)
                          && Covers(Canonical(facts, merges, oracle)[k], facts[i])
    ensures multiset(Outcome(facts, merges, oracle))
         == multiset(Kept(facts, Gone(merges))) + multiset(Canonical(facts, merges, oracle))
    ensures forall g | g in Outcome(facts, merges, oracle) :: g in facts || g in Canonical(facts, merges, oracle)
  {
    hide Outcome, Kept, Canonical, Covers, Candidates, ValidMerges;
    OutcomeHolds(facts, merges, oracle);
    KeptHolds(facts, Gone(merges));
    if i in Gone(merges) {
      CandidatesDistinct(|facts|, merges);
      InOneCluster(merges, i);
      var k :| 0 <= k < |merges| && i in merges[k];
      CanonicalCovers(facts, merges, oracle, k, i);
    }
  }

  lemma CandidatesDistinct(n: nat, merges: seq<Cluster>)
    requires Candidates(n, merges)
    ensures forall x: nat :: multiset(Clusters.Flatten(merges))[x] <= 1
  {
  }

  lemma CanonicalCovers(facts: seq<Fact>, merges: seq<Cluster>, oracle: Oracle, k: nat, i: nat)
    requires ValidMerges(facts, merges, oracle) && k < |merges| && i < |facts| && i in merges[k]
    ensures var canon := Canonical(facts, merges, oracle); canon[k] in canon && Covers(canon[k], facts[i])
  {
    var from := Pick(facts, merges[k]);
    var a :| 0 <= a < |merges[k]| && merges[k][a] == i;
    assert from[a] == facts[i];
  }

  /** A canonical fact takes its turn and its use from facts of the list. */
  lemma CanonicalIsFromList(facts: seq<Fact>, merges: seq<Cluster>, oracle: Oracle, k: nat)
    requires ValidMerges(facts, merges, oracle) && k < |merges|
    ensures var m := Canonical(facts, merges, oracle)[k];
            && (exists i :: 0 <= i < |facts| && facts[i].addedTurn == m.addedTurn)
            && (exists i :: 0 <= i < |facts| && facts[i].lastUsed == m.lastUsed)
  {
    hide Verdict, Outcome, Kept;
    var from := Pick(facts, merges[k]);
    var a :| 0 <= a < |from| && from[a].addedTurn == MinTurn(from);
    var b :| 0 <= b < |from| && from[b].lastUsed == MaxUsed(from);
    assert facts[merges[k][a]].addedTurn == MinTurn(from) && facts[merges[k][b]].lastUsed == MaxUsed(from);
  }

  lemma EachIsCovered(facts: seq<Fact>, merges: seq<Cluster>, oracle: Oracle, f: Fact)
    requires Candidates(|facts|, merges) && ValidMerges(facts, merges, oracle) && f in facts
    ensures exists g :: g in Outcome(facts, merges, oracle) && g.addedTurn <= f.addedTurn && f.lastUsed <= g.lastUsed
  {
    hide Outcome, Kept, Canonical, ValidMerges, Candidates, Gone;
    var i :| 0 <= i < |facts| && facts[i] == f;
    EveryFactAccountedFor(facts, merges, oracle, i);
  }

  lemma EachIsFromList(facts: seq<Fact>, merges: seq<Cluster>, oracle: Oracle, g: Fact)
    requires ValidMerges(facts, merges, oracle) && g in Outcome(facts, merges, oracle)
    ensures exists i :: 0 <= i < |facts| && facts[i].addedTurn == g.addedTurn
    ensures exists i :: 0 <= i < |facts| && facts[i].lastUsed == g.lastUsed
  {
    hide Outcome, Kept, Canonical, ValidMerges, Gone;
    var canon := Canonical(facts, merges, oracle);
    OutcomeHolds(facts, merges, oracle);
    KeptHolds(facts, Gone(merges));
    if g in canon {
      var k :| 0 <= k < |canon| && canon[k] == g;
      CanonicalIsFromList(facts, merges, oracle, k);
    }
  }

  /** The earliest turn and the latest use in the list are what they were. */
  lemma ExtremesKept(facts: seq<Fact>, merges: seq<Cluster>, oracle: Oracle, bound: int)
    requires Candidates(|facts|, merges) && ValidMerges(facts, merges, oracle)
    ensures var all := Outcome(facts, merges, oracle);
            && ((forall f | f in facts :: bound <= f.addedTurn) <==> (forall f | f in all :: bound <= f.addedTurn))
            && ((forall f | f in facts :: f.lastUsed <= bound) <==> (forall f | f in all :: f.lastUsed <= bound))
  {
    hide Outcome, Kept, Canonical, ValidMerges, Candidates, Gone;
    forall f | f in facts {
      EachIsCovered(facts, merges, oracle, f);
    }
    forall g | g in Outcome(facts, merges, oracle) {
      EachIsFromList(facts, merges, oracle, g);
    }
  }

  /** What one pass makes of the clusters: some of those accepted, at least those that a pass without a
      memo would merge under the same cap, and just those when no memo or no cap is in the way. */
  ghost predicate Transparent(facts: seq<Fact>, clusters: seq<Cluster>, memoised: bool, oracle: Oracle,
                              failing: set<nat>, cap: nat, merges: seq<Cluster>)
    requires AllInRange(clusters, |facts|)
  {
    var plain := Accepted(facts, clusters[..Min(cap, |clusters|)], oracle, failing);
    && IsSubList(merges, Accepted(facts, clusters, oracle, failing))
    && IsSubList(plain, merges)
    && (!memoised || cap >= |clusters| ==> merges == plain)
  }

  lemma NothingToMerge(facts: seq<Fact>, memoised: bool, oracle: Oracle, failing: set<nat>, cap: nat)
    ensures Transparent(facts, [], memoised, oracle, failing, cap, [])
    ensures ValidMerges(facts, [], oracle) && Candidates(|facts|, []) && Outcome(facts, [], oracle) == facts && Saved([]) == 0
  {}

  /** Below two facts no index has a partner. */
  lemma NoPartners(similar: Clusters.Similar, n: nat)
    requires n < 2
    ensures Clusters.CoveredOnce(similar, n, [])
  {}

  /** dedup_facts: without two facts or without embeddings there is nothing to do. `clusters` are
      the candidates that the pass is given. */
  method DedupFacts(facts: seq<Fact>, embedderWorks: bool, similar: Clusters.Similar, conv: Option<string>,
                    memo: Memo, oracle: Oracle, failing: set<nat>, cap: nat)
    returns (result: seq<Fact>, removed: int, calls: nat, ghost clusters: seq<Cluster>, ghost merges: seq<Cluster>)
    requires memo.Valid() && memo.Sound(oracle)
    modifies memo
    ensures memo.Valid() && memo.Sound(oracle)
    ensures Candidates(|facts|, clusters) && Clusters.WithinComponents(similar, |facts|, clusters)
    ensures embedderWorks && (forall f | f in facts :: f.text != "") ==> Clusters.CoveredOnce(similar, |facts|, clusters)
    ensures !embedderWorks || (exists f :: f in facts && f.text == "") ==> clusters == [] && result == facts && calls == 0
    ensures Transparent(facts, clusters, conv.Some?, oracle, failing, cap, merges)
    ensures ValidMerges(facts, merges, oracle) && Candidates(|facts|, merges)
    ensures result == Outcome(facts, merges, oracle)
    ensures removed == Saved(merges) && calls <= cap && removed <= 3 * calls
    ensures Clusters.WithinComponents(similar, |facts|, merges)
  {
    hide Candidates, Outcome, ValidMerges, Accepted, IsSubList, Saved, Clusters.CoveredOnce, Memo.Valid, Memo.Sound;
    clusters, merges := [], [];
    NothingToMerge(facts, conv.Some?, oracle, failing, cap);
    if |facts| < 2 {
      NoPartners(similar, |facts|);
      return facts, 0, 0, clusters, merges;
    }
    var embedded := embedderWorks && forall f | f in facts :: f.text != "";
    var found := Clusters.FindCandidateClusters(|facts|, embedded, similar);
    clusters := found;
    if found == [] {
      return facts, 0, 0, clusters, merges;
    }
    ClustersAreCandidates(similar, |facts|, found);
    hide Clusters.WithinComponents, AskedOf, KnownKeys;
    ghost var asked;
    result, removed, calls, merges, asked := MergePass(facts, found, conv, memo, oracle, failing, cap);
    MergesAreCandidates(facts, found, merges, oracle, failing);
    RemovedIsSaved(facts, merges, oracle);
    MergesStayWithin(facts, similar, found, merges, oracle, failing);
  }

  // ---------------------------------------------------------------------------------
  // Passes one after another
  // ---------------------------------------------------------------------------------

  /** No history of passes, whatever failed in them, keeps a later pass from merging: what was an
      error is asked again, and only what the model itself refused is not. */
  method AfterAnyPasses(earlier: seq<Pass>, last: Pass, oracle: Oracle)
    returns (result: seq<Fact>, calls: nat, ghost merges: seq<Cluster>)
    requires forall k | 0 <= k < |earlier| :: Candidates(|earlier[k].facts|, earlier[k].clusters)
    requires Candidates(|last.facts|, last.clusters)
    ensures AllInRange(last.clusters, |last.facts|)
    ensures ValidMerges(last.facts, merges, oracle) && result == Outcome(last.facts, merges, oracle)
    ensures Transparent(last.facts, last.clusters, last.conv.Some?, oracle, last.failing, last.cap, merges)
    ensures last.failing == {} && last.cap >= |last.clusters| ==>
              && ValidMerges(last.facts, Accepted(last.facts, last.clusters, oracle, {}), oracle)
              && result == Outcome(last.facts, Accepted(last.facts, last.clusters, oracle, {}), oracle)
    ensures calls <= last.cap
    ensures |merges| <= calls
    ensures last.failing == {} && last.cap >= |last.clusters| ==> merges == Accepted(last.facts, last.clusters, oracle, {})
  {
    hide Candidates, Outcome, ValidMerges, IsSubList, Accepted, Memo.Valid, Memo.Sound, AskedOf, KnownKeys;
    CandidatesAre(|last.facts|, last.clusters);
    var memo := new Memo();
    for k := 0 to |earlier|
      invariant memo.Valid() && memo.Sound(oracle)
    {
      var p := earlier[k];
      var merged, removed, made;
      ghost var asked;
      merged, removed, made, merges, asked := MergePass(p.facts, p.clusters, p.conv, memo, oracle, p.failing, p.cap);
    }
    var removed;
    ghost var asked;
    result, removed, calls, merges, asked :=
      MergePass(last.facts, last.clusters, last.conv, memo, oracle, last.failing, last.cap);
    assert last.clusters[..|last.clusters|] == last.clusters;
  }

  /** With room for it, the model's own refusal of a cluster is known after the pass that was given it ... */
  lemma RefusalIsKept(p: Pass, oracle: Oracle, start: set<Key>, known: set<Key>, asked: set<nat>, j: nat)
    requires Positions(p, asked) && Learns(p, oracle, start, asked, known) && Roomy(p, start) && p.conv.Some?
    requires j in asked && j !in p.failing
    requires oracle(KeyAt(p, j)) in {Refused(Keep), Refused(Truncated), Refused(Short), Refused(Collapsed)}
    ensures KeyAt(p, j) in known && start <= known
  {
    hide Roomy, KeyAt;
    ReplyTeaches(p, oracle, j);
    hide Teaches;
  }

  /** ... what is no answer is not, a failed call or a reply in the wrong form: what is known of a cluster that only
      got such, was known before ... */
  lemma NoAnswerIsKept(p: Pass, oracle: Oracle, start: set<Key>, known: set<Key>, asked: set<nat>, key: Key)
    requires Positions(p, asked) && Learns(p, oracle, start, asked, known)
    requires forall j | j in asked && KeyAt(p, j) == key ::
               j in p.failing || oracle(key) in {Refused(Error), Refused(Markup)} || oracle(key).Merged?
    ensures key in known ==> key in start
  {
    hide Roomy, KeyAt;
    forall j | j in asked && KeyAt(p, j) == key ensures !Teaches(p, oracle, j) { ReplyTeaches(p, oracle, j); }
    hide Teaches;
  }

  /** ... and what is known to begin with is not asked. */
  lemma KnownIsNotAsked(p: Pass, oracle: Oracle, start: set<Key>, known: set<Key>, calls: nat, asked: set<nat>, k: nat)
    requires AskedOf(p, oracle, start, known, calls, asked) && Roomy(p, start) && p.conv.Some?
    requires k < |p.clusters| && KeyAt(p, k) in start
    ensures k !in asked
  {
    hide Roomy, KeyAt;
    assert Knows(p, oracle, start, asked, k);
  }

  /** A cluster that is met with budget left is asked about unless its very texts have been refused before: together,
      as often and with no others, by an earlier call of the pass or as the memo knew at its start. */
  lemma NewClusterIsAsked(p: Pass, oracle: Oracle, start: set<Key>, known: set<Key>, calls: nat, asked: set<nat>, k: nat)
    requires AskedOf(p, oracle, start, known, calls, asked)
    requires k < |p.clusters| && |Earlier(asked, k)| < p.cap
    requires KeyAt(p, k) !in start
    requires forall j | j in asked && j < k && Teaches(p, oracle, j) ::
               !SameTexts(Pick(p.facts, p.clusters[j]), Pick(p.facts, p.clusters[k]))
    ensures k in asked
  {
    hide ClusterKey, SameTexts, Teaches;
    forall j | j in asked && j < k && Teaches(p, oracle, j) ensures KeyAt(p, j) != KeyAt(p, k) {
      SameKeyExactly(Pick(p.facts, p.clusters[j]), Pick(p.facts, p.clusters[k]));
    }
    assert !Knows(p, oracle, start, asked, k);
  }

  /** So it is in the next pass: after a first one it knows only what was known and the texts refused in that. */
  lemma NewClusterIsAskedLater(p: Pass, q: Pass, oracle: Oracle, start: set<Key>, between: set<Key>, known: set<Key>,
                               calls: nat, made: nat, asked: set<nat>, next: set<nat>, k: nat)
    requires AskedOf(p, oracle, start, between, calls, asked) && AskedOf(q, oracle, between, known, made, next)
    requires k < |q.clusters| && |Earlier(next, k)| < q.cap && KeyAt(q, k) !in start
    requires forall j | j in asked && Teaches(p, oracle, j) ::
               !SameTexts(Pick(p.facts, p.clusters[j]), Pick(q.facts, q.clusters[k]))
    requires forall j | j in next && j < k && Teaches(q, oracle, j) ::
               !SameTexts(Pick(q.facts, q.clusters[j]), Pick(q.facts, q.clusters[k]))
    ensures k in next
  {
    hide ClusterKey, SameTexts, Teaches, Roomy;
    forall j | j in asked && Teaches(p, oracle, j) ensures KeyAt(p, j) != KeyAt(q, k) {
      SameKeyExactly(Pick(p.facts, p.clusters[j]), Pick(q.facts, q.clusters[k]));
    }
    assert KeyAt(q, k) !in between;
    NewClusterIsAsked(q, oracle, between, known, made, next, k);
  }

  /** The clusters asked about in a pass all of whose calls teach have keys of their own, none known before. */
  lemma AskedApart(p: Pass, oracle: Oracle, start: set<Key>, asked: set<nat>, j: nat, k: nat)
    requires Asks(p, oracle, start, |p.clusters|, asked) && Roomy(p, start) && p.conv.Some?
    requires forall i | 0 <= i < |p.clusters| :: Teaches(p, oracle, i)
    requires k in asked
    ensures KeyAt(p, k) !in start
    ensures j in asked && j < k ==> KeyAt(p, j) != KeyAt(p, k)
  {
    hide Roomy;
    assert !Knows(p, oracle, start, asked, k);
    if j in asked && j < k {
      assert j in Earlier(asked, k) && Teaches(p, oracle, j);
    }
  }

  lemma {:induction false} ImageSize(p: Pass, oracle: Oracle, asked: set<nat>)
    requires Positions(p, asked) && forall k | k in asked :: Teaches(p, oracle, k)
    requires forall j, k | j in asked && k in asked && j < k :: KeyAt(p, j) != KeyAt(p, k)
    ensures |Taught(p, oracle, asked)| == |asked|
  {
    hide Teaches, KeyAt;
    if asked != {} {
      var x :| x in asked;
      var rest := asked - {x};
      ImageSize(p, oracle, rest);
      assert Taught(p, oracle, asked) == Taught(p, oracle, rest) + {KeyAt(p, x)};
      assert KeyAt(p, x) !in Taught(p, oracle, rest);
    } else {
      assert Taught(p, oracle, asked) == {};
    }
  }

  /** Every call of a pass all of whose calls teach is about a key of its own. */
  lemma LearntApart(p: Pass, oracle: Oracle, start: set<Key>, asked: set<nat>)
    requires Asks(p, oracle, start, |p.clusters|, asked) && Roomy(p, start) && p.conv.Some?
    requires forall i | 0 <= i < |p.clusters| :: Teaches(p, oracle, i)
    ensures |Taught(p, oracle, asked)| == |asked| && Taught(p, oracle, asked) <= Unknown(p, start)
  {
    hide Teaches, KeyAt, Roomy, Knows, Earlier;
    forall j, k | j in asked && k in asked && j < k ensures KeyAt(p, j) != KeyAt(p, k) {
      AskedApart(p, oracle, start, asked, j, k);
    }
    ImageSize(p, oracle, asked);
    forall k | k in asked ensures KeyAt(p, k) in AllKeys(p) && KeyAt(p, k) !in start {
      AskedApart(p, oracle, start, asked, k, k);
    }
  }

  /** With budget left over nothing is left to ask. */
  lemma NothingLeftToAsk(p: Pass, oracle: Oracle, start: set<Key>, asked: set<nat>)
    requires Asks(p, oracle, start, |p.clusters|, asked) && |asked| < p.cap && p.conv.Some?
    requires forall i | 0 <= i < |p.clusters| :: Teaches(p, oracle, i)
    ensures AllKeys(p) <= start + Taught(p, oracle, asked)
  {
    hide Teaches, KeyAt, Roomy;
    forall k: nat | k < |p.clusters| ensures KeyAt(p, k) in start + Taught(p, oracle, asked) {
      SubsetSize(Earlier(asked, k), asked);
      assert k !in asked ==> Knows(p, oracle, start, asked, k);
    }
  }

  /** What a conversation's memo does not know of the clusters of a pass. */
  function Unknown(p: Pass, known: set<Key>): set<Key>
    requires p.InRange()
  {
    AllKeys(p) - known
  }

  /** A pass all of whose calls teach asks about as many new clusters as it may. */
  lemma AsksAllItMay(p: Pass, oracle: Oracle, start: set<Key>, known: set<Key>, calls: nat, asked: set<nat>)
    requires AskedOf(p, oracle, start, known, calls, asked) && Roomy(p, start) && p.conv.Some?
    requires forall i | 0 <= i < |p.clusters| :: Teaches(p, oracle, i)
    ensures known <= start + AllKeys(p)
    ensures calls == Min(p.cap, |Unknown(p, start)|) && |Unknown(p, known)| == |Unknown(p, start)| - calls
  {
    hide Teaches, Taught, AllKeys, Roomy, Knows, Earlier;
    var learnt := Taught(p, oracle, asked);
    LearntApart(p, oracle, start, asked);
    if calls < p.cap {
      NothingLeftToAsk(p, oracle, start, asked);
      assert Unknown(p, start) == learnt;
    }
    SubsetSize(learnt, Unknown(p, start));
    assert known == start + learnt;
    assert Unknown(p, known) == Unknown(p, start) - learnt;
  }

  /** The calls that so many passes may make. */
  function Budget(rounds: nat, cap: nat): nat { rounds * cap }

  /** Passes over clusters that the model refuses, whatever the cap: in all, each question is asked once. */
  method WorkOff(p: Pass, rounds: nat, memo: Memo, oracle: Oracle) returns (total: nat)
    requires Candidates(|p.facts|, p.clusters) && p.InRange() && memo.Valid() && memo.Sound(oracle)
    requires p.conv.Some? && Roomy(p, KnownKeys(memo.convs, p.conv))
    requires forall k | 0 <= k < |p.clusters| :: Teaches(p, oracle, k)
    modifies memo
    ensures memo.Valid() && memo.Sound(oracle)
    ensures total == Min(Budget(rounds, p.cap), |Unknown(p, old(KnownKeys(memo.convs, p.conv)))|)
    ensures |Unknown(p, KnownKeys(memo.convs, p.conv))| == |Unknown(p, old(KnownKeys(memo.convs, p.conv)))| - total
  {
    hide Candidates, AskedOf, KnownKeys, AllKeys, Unknown, Teaches, Transparent, Accepted, IsSubList, ValidMerges, Outcome;
    hide Memo.Valid, Memo.Sound, Roomy;
    total := 0;
    ghost var start := KnownKeys(memo.convs, p.conv);
    for r := 0 to rounds
      invariant memo.Valid() && memo.Sound(oracle) && KnownKeys(memo.convs, p.conv) <= start + AllKeys(p)
      invariant total == Min(Budget(r, p.cap), |Unknown(p, start)|)
      invariant |Unknown(p, KnownKeys(memo.convs, p.conv))| == |Unknown(p, start)| - total
    {
      ghost var before := KnownKeys(memo.convs, p.conv);
      StillRoomy(p, start, before);
      var result, removed, calls;
      ghost var merges, asked;
      result, removed, calls, merges, asked := MergePass(p.facts, p.clusters, p.conv, memo, oracle, p.failing, p.cap);
      assert p == Pass(p.facts, p.clusters, p.conv, p.failing, p.cap);
      AsksAllItMay(p, oracle, before, KnownKeys(memo.convs, p.conv), calls, asked);
      assert Budget(r + 1, p.cap) == Budget(r, p.cap) + p.cap;
      total := total + calls;
    }
  }

  lemma StillRoomy(p: Pass, start: set<Key>, known: set<Key>)
    requires p.InRange() && Roomy(p, start) && known <= start + AllKeys(p)
    ensures Roomy(p, known)
  {
    SubsetSize(known + AllKeys(p), start + AllKeys(p));
  }

  lemma MergesStayWithin(facts: seq<Fact>, similar: Clusters.Similar, clusters: seq<Cluster>, merges: seq<Cluster>,
                         oracle: Oracle, failing: set<nat>)
    requires AllInRange(clusters, |facts|) && IsSubList(merges, Accepted(facts, clusters, oracle, failing))
    requires Clusters.WithinComponents(similar, |facts|, clusters)
    ensures Clusters.WithinComponents(similar, |facts|, merges)
  {
    hide Clusters.Linked;
    SubListFlatten(merges, Accepted(facts, clusters, oracle, failing));
    AcceptedIs(facts, clusters, oracle, failing);
    forall k | 0 <= k < |merges| ensures merges[k] in clusters {
      assert merges[k] in merges;
    }
  }

  lemma ClustersAreCandidates(similar: Clusters.Similar, n: nat, clusters: seq<Cluster>)
    requires Clusters.CoveredOnce(similar, n, clusters) && Clusters.Bounded(clusters)
    ensures Candidates(n, clusters) && AllInRange(clusters, n)
  {
    forall k, j | 0 <= k < |clusters| && 0 <= j < |clusters[k]| ensures clusters[k][j] < n {
      Clusters.InFlatten(clusters, k, j);
      assert multiset(Clusters.Flatten(clusters))[clusters[k][j]] > 0;
    }
  }
}
