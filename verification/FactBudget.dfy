/**
  Which facts fit a token budget, in compactor/facts.py: the LRU split that injection and eviction
  share, and the choice of facts for a prompt. A list entry is one object: it carries an identity,
  and the rendered block is represented by its length.
  */
module FactBudget {
  import opened FactRows

  datatype Held = Held(id: nat, fact: Fact)

  ghost predicate Distinct(xs: seq<Held>) { forall i, j | 0 <= i < j < |xs| :: xs[i].id != xs[j].id }

  const HEADER_CHARS: nat := 111
  const HEADER_TOKENS: nat := (HEADER_CHARS + 1) / 4

  /** The characters of the bullet lines, each with its line break. */
  function Chars(xs: seq<Held>): nat {
    if xs == [] then 0 else Chars(xs[..|xs| - 1]) + |xs[|xs| - 1].fact.text| + 3
  }

  /** What the block costs as it is really rendered. */
  function Rendered(xs: seq<Held>): nat { if xs == [] then 0 else (HEADER_CHARS + Chars(xs)) / 4 }

  /** What one line is charged by the fast walk. */
  function Bullet(x: Held): nat { (|x.fact.text| + 3) / 4 }

  function Bullets(xs: seq<Held>): nat { if xs == [] then 0 else Bullets(xs[..|xs| - 1]) + Bullet(xs[|xs| - 1]) }

  const HEADER: string :=
    "[Persistent facts about this conversation \U{2014} established earlier. Stay "
    + "accurate to these; the wording is yours.]"

  /** format_facts_block, of facts that are not none. */
  function Block(xs: seq<Held>): string {
    if xs == [] then HEADER else Block(xs[..|xs| - 1]) + "\n" + Line(xs[|xs| - 1])
  }

  function Line(x: Held): string { "- " + x.fact.text }

  lemma {:induction false} BlockLength(xs: seq<Held>)
    ensures |Block(xs)| == |HEADER| + Chars(xs)
  {
    if xs != [] {
      BlockLength(xs[..|xs| - 1]);
      hide HEADER;
    }
  }

  /** Each of the three charges is a quarter of the characters of the text that it is for. */
  lemma ChargesAreTexts(xs: seq<Held>)
    ensures xs != [] ==> Rendered(xs) == |Block(xs)| / 4
    ensures HEADER_TOKENS == |HEADER + "\n"| / 4
    ensures forall x | x in xs :: Bullet(x) == |Line(x) + "\n"| / 4
  {
    BlockLength(xs);
    assert |HEADER| == HEADER_CHARS;
    hide HEADER;
  }

  predicate TurnFirst(a: Held, b: Held) { a.fact.addedTurn <= b.fact.addedTurn }

  /** Eviction order: unpinned before pinned, then least recently used, then oldest. */
  predicate EvictFirst(a: Held, b: Held) {
    if a.fact.pin != b.fact.pin then b.fact.pin
    else if a.fact.lastUsed != b.fact.lastUsed then a.fact.lastUsed < b.fact.lastUsed
    else a.fact.addedTurn <= b.fact.addedTurn
  }

  predicate FreshFirst(a: Held, b: Held) {
    if a.fact.lastUsed != b.fact.lastUsed then a.fact.lastUsed > b.fact.lastUsed
    else a.fact.addedTurn >= b.fact.addedTurn
  }

  function ByTurn(xs: seq<Held>): (r: seq<Held>)
    ensures Sorted(r, TurnFirst) && multiset(r) == multiset(xs) && |r| == |xs|
    ensures forall i, j | 0 <= i < j < |r| :: r[i].fact.addedTurn <= r[j].fact.addedTurn
  {
    SortBy(xs, TurnFirst)
  }

  function Reversed(xs: seq<Held>): (r: seq<Held>)
    ensures |r| == |xs| && multiset(r) == multiset(xs)
    ensures forall k | 0 <= k < |xs| :: r[k] == xs[|xs| - 1 - k]
  {
    if xs == [] then [] else
      assert xs == xs[..|xs| - 1] + [xs[|xs| - 1]];
      [xs[|xs| - 1]] + Reversed(xs[..|xs| - 1])
  }

  predicate KeepFirst(a: Held, b: Held) { EvictFirst(b, a) }

  /** The order in which the split considers the facts. */
  function KeepOrder(facts: seq<Held>): (r: seq<Held>)
    ensures multiset(r) == multiset(facts) && |r| == |facts| && Sorted(r, KeepFirst)
  {
    Reversed(SortBy(facts, EvictFirst))
  }

  /** The entries that belong to a set, in their order. */
  function Only(xs: seq<Held>, s: set<Held>): seq<Held> {
    if xs == [] then [] else
      Only(xs[..|xs| - 1], s) + if xs[|xs| - 1] in s then [xs[|xs| - 1]] else []
  }

  lemma {:induction false} OnlyMembers(xs: seq<Held>, s: set<Held>)
    ensures forall x :: x in Only(xs, s) <==> x in xs && x in s
  {
    if xs != [] {
      OnlyMembers(xs[..|xs| - 1], s);
      assert xs == xs[..|xs| - 1] + [xs[|xs| - 1]];
    }
  }

  function Without(xs: seq<Held>, part: seq<Held>): seq<Held> { Only(xs, set x | x in xs && x !in part) }

  function Pinned(xs: seq<Held>): seq<Held> { Only(xs, set x | x in xs && x.fact.pin) }

  function Unpinned(xs: seq<Held>): seq<Held> { Only(xs, set x | x in xs && !x.fact.pin) }

  lemma PrefixSub(a: seq<Held>, b: seq<Held>)
    requires a <= b
    ensures multiset(a) <= multiset(b)
  {
    assert b == a + b[|a|..];
  }

  // ---------------------------------------------------------------------------------
  // The greedy walk and the settling against the real render
  // ---------------------------------------------------------------------------------

  /** Takes every line that still fits and skips those that do not. */
  function Greedy(order: seq<Held>, budget: int): (r: seq<Held>)
    ensures multiset(r) <= multiset(order)
    ensures r == [] || Bullets(r) <= budget
    ensures |r| <= |order|
  {
    if order == [] then [] else
      var x := order[|order| - 1];
      assert order == order[..|order| - 1] + [x];
      var init := Greedy(order[..|order| - 1], budget);
      if Bullets(init) + Bullet(x) <= budget then
        assert (init + [x])[..|init|] == init;
        init + [x]
      else init
  }

  /** The longest prefix of the picks that renders within the budget beside what is fixed. */
  function Settled(fixed: seq<Held>, picks: seq<Held>, maxTokens: int): (r: seq<Held>)
    ensures r <= picks
    ensures r == [] || Rendered(fixed + r) <= maxTokens
    ensures forall n | |r| < n <= |picks| :: Rendered(fixed + picks[..n]) > maxTokens
  {
    if picks == [] || Rendered(fixed + picks) <= maxTokens then picks else
      var init := picks[..|picks| - 1];
      assert forall n | 0 <= n < |picks| :: init[..n] == picks[..n];
      assert picks[..|picks|] == picks;
      Settled(fixed, init, maxTokens)
  }

  method GreedyWalk(order: seq<Held>, budget: int) returns (kept: seq<Held>)
    ensures kept == Greedy(order, budget)
  {
    kept := [];
    var running := 0;
    for i := 0 to |order|
      invariant kept == Greedy(order[..i], budget) && running == Bullets(kept)
    {
      var x := order[i];
      assert order[..i + 1][..i] == order[..i];
      if running + Bullet(x) <= budget {
        assert (kept + [x])[..|kept|] == kept;
        kept := kept + [x];
        running := running + Bullet(x);
      }
    }
    assert order[..|order|] == order;
  }

  method Settle(fixed: seq<Held>, picks: seq<Held>, maxTokens: int) returns (kept: seq<Held>)
    ensures kept == Settled(fixed, picks, maxTokens)
  {
    kept := picks;
    while kept != [] && Rendered(fixed + kept) > maxTokens
      invariant Settled(fixed, kept, maxTokens) == Settled(fixed, picks, maxTokens)
      decreases |kept|
    {
      kept := kept[..|kept| - 1];
    }
  }

  // ---------------------------------------------------------------------------------
  // Arithmetic of the two measures
  // ---------------------------------------------------------------------------------

  lemma {:induction false} SumsConcat(a: seq<Held>, b: seq<Held>)
    ensures Chars(a + b) == Chars(a) + Chars(b) && Bullets(a + b) == Bullets(a) + Bullets(b)
  {
    if b == [] {
      assert a + b == a;
    } else {
      assert (a + b)[..|a + b| - 1] == a + b[..|b| - 1];
      SumsConcat(a, b[..|b| - 1]);
    }
  }

  lemma {:induction false} TakeOut(b: seq<Held>, i: nat)
    requires i < |b|
    ensures multiset(b) == multiset(b[..i] + b[i + 1..]) + multiset{b[i]}
    ensures Chars(b) == Chars(b[..i] + b[i + 1..]) + |b[i].fact.text| + 3
    ensures Bullets(b) == Bullets(b[..i] + b[i + 1..]) + Bullet(b[i])
  {
    assert b == b[..i] + [b[i]] + b[i + 1..];
    SumsConcat(b[..i] + [b[i]], b[i + 1..]);
    SumsConcat(b[..i], [b[i]]);
    SumsConcat(b[..i], b[i + 1..]);
  }

  lemma CancelOne<T>(a: multiset<T>, b: multiset<T>, x: T)
    requires a + multiset{x} <= b + multiset{x}
    ensures a <= b
  {
    forall y ensures a[y] <= b[y] { assert (a + multiset{x})[y] <= (b + multiset{x})[y]; }
  }

  /** Both measures grow with the collection, whatever its order. */
  lemma {:induction false} SumsGrow(a: seq<Held>, b: seq<Held>)
    requires multiset(a) <= multiset(b)
    ensures Chars(a) <= Chars(b) && Bullets(a) <= Bullets(b)
  {
    if a != [] {
      var x, init := a[|a| - 1], a[..|a| - 1];
      assert a == init + [x];
      assert x in multiset(b);
      var i :| 0 <= i < |b| && b[i] == x;
      TakeOut(b, i);
      CancelOne(multiset(init), multiset(b[..i] + b[i + 1..]), x);
      SumsGrow(init, b[..i] + b[i + 1..]);
    }
  }

  lemma RenderedGrows(a: seq<Held>, b: seq<Held>)
    requires multiset(a) <= multiset(b)
    ensures Rendered(a) <= Rendered(b) && (a != [] ==> b != [])
  {
    SumsGrow(a, b);
    if a != [] { assert a[0] in multiset(b); }
  }

  /** The two measures differ by the floors alone. */
  lemma {:induction false} FloorsLose(xs: seq<Held>)
    ensures 4 * Bullets(xs) <= Chars(xs) <= 4 * Bullets(xs) + 3 * |xs|
  {
    if xs != [] { FloorsLose(xs[..|xs| - 1]); }
  }

  /** The walk that charges lines one by one undershoots the block by at most (3k - 1) / 4 tokens. */
  lemma PicksNearlyFit(picks: seq<Held>, maxTokens: int)
    requires picks != [] && Bullets(picks) <= maxTokens - HEADER_TOKENS
    ensures Rendered(picks) <= maxTokens + (3 * |picks| - 1) / 4
  {
    FloorsLose(picks);
  }

  /** No smaller bound is true, for any number of lines. */
  lemma {:induction false} PicksNearlyFitIsTight(k: nat) returns (picks: seq<Held>)
    requires k > 0
    ensures Distinct(picks) && |picks| == k && Bullets(picks) == k && Chars(picks) == 7 * k
    ensures forall x | x in picks :: x.id < k
    ensures Rendered(picks) == Bullets(picks) + HEADER_TOKENS + (3 * k - 1) / 4
  {
    var x := Held(k - 1, Fact("abcd", 0, 0, false));
    if k == 1 {
      picks := [x];
    } else {
      var init := PicksNearlyFitIsTight(k - 1);
      picks := init + [x];
      assert picks[..|picks| - 1] == init;
    }
  }

  // ---------------------------------------------------------------------------------
  // The LRU split
  // ---------------------------------------------------------------------------------

  function Picks(facts: seq<Held>, maxTokens: int): seq<Held> {
    Greedy(KeepOrder(facts), maxTokens - HEADER_TOKENS)
  }

  lemma PicksAreGreedy(facts: seq<Held>, maxTokens: int)
    requires Overfull(facts, maxTokens)
    ensures Picks(facts, maxTokens) == Greedy(KeepOrder(facts), maxTokens - HEADER_TOKENS)
    ensures Bullets(Picks(facts, maxTokens)) <= maxTokens - HEADER_TOKENS
  {}

  function Survivors(facts: seq<Held>, maxTokens: int): (r: seq<Held>)
    ensures multiset(r) <= multiset(facts)
  {
    var picks := Picks(facts, maxTokens);
    var r := Settled([], picks, maxTokens);
    PrefixSub(r, picks);
    r
  }

  predicate Overfull(facts: seq<Held>, maxTokens: int) {
    facts != [] && HEADER_TOKENS <= maxTokens && Rendered(facts) > maxTokens
  }

  function Working(facts: seq<Held>, maxTokens: int): seq<Held> {
    if facts == [] || HEADER_TOKENS > maxTokens then []
    else if Rendered(facts) <= maxTokens then facts
    else ByTurn(Survivors(facts, maxTokens))
  }

  function Overflow(facts: seq<Held>, maxTokens: int): seq<Held> {
    if facts == [] then []
    else if HEADER_TOKENS > maxTokens then ByTurn(facts)
    else if Rendered(facts) <= maxTokens then []
    else ByTurn(Without(facts, Survivors(facts, maxTokens)))
  }

  method LruSplit(facts: seq<Held>, maxTokens: int) returns (kept: seq<Held>, evicted: seq<Held>)
    requires Distinct(facts)
    ensures kept == Working(facts, maxTokens) && evicted == Overflow(facts, maxTokens)
  {
    hide Greedy, Settled, Only, SortBy, Sorted, ByTurn, Reversed, KeepOrder, Distinct, Bullets, Chars;
    if facts == [] { return [], []; }
    if HEADER_TOKENS > maxTokens { return [], ByTurn(facts); }
    if Rendered(facts) <= maxTokens { return facts, []; }
    var picks := GreedyWalk(KeepOrder(facts), maxTokens - HEADER_TOKENS);
    var survivors := Settle([], picks, maxTokens);
    var keptIds := set x | x in survivors :: x.id;
    assert survivors == Survivors(facts, maxTokens);
    var others := set x | x in facts && x.id !in keptIds;
    SameObjects(facts, survivors, keptIds);
    assert others == set x | x in facts && x !in survivors;
    assert Only(facts, others) == Without(facts, survivors);
    kept, evicted := ByTurn(survivors), ByTurn(Only(facts, others));
  }

  lemma SameObjects(facts: seq<Held>, part: seq<Held>, ids: set<nat>)
    requires Distinct(facts) && multiset(part) <= multiset(facts)
    requires ids == set x | x in part :: x.id
    ensures forall x | x in facts :: x in part <==> x.id in ids
  {
    forall x, y | x in facts && y in part && x.id == y.id ensures x == y {
      assert y in multiset(facts);
    }
  }

  lemma {:induction false} OnlyPartitions(xs: seq<Held>, s: set<Held>, t: set<Held>)
    requires forall x | x in xs :: x in s <==> x !in t
    ensures multiset(Only(xs, s)) + multiset(Only(xs, t)) == multiset(xs)
  {
    if xs != [] {
      var init, last := xs[..|xs| - 1], xs[|xs| - 1];
      OnlyPartitions(init, s, t);
      assert xs == init + [last];
      var a, b := multiset(Only(init, s)), multiset(Only(init, t));
      if last in s {
        assert Only(xs, s) == Only(init, s) + [last] && Only(xs, t) == Only(init, t) + [];
        assert multiset(Only(xs, s)) == a + multiset{last} && multiset(Only(xs, t)) == b;
      } else {
        assert Only(xs, t) == Only(init, t) + [last] && Only(xs, s) == Only(init, s) + [];
        assert multiset(Only(xs, t)) == b + multiset{last} && multiset(Only(xs, s)) == a;
      }
    }
  }

  lemma {:induction false} DistinctCounts(xs: seq<Held>)
    requires Distinct(xs)
    ensures forall x :: multiset(xs)[x] == if x in xs then 1 else 0
  {
    if xs != [] {
      var init, last := xs[..|xs| - 1], xs[|xs| - 1];
      DistinctCounts(init);
      assert xs == init + [last];
      assert last !in init;
    }
  }

  /** A collection without repetitions is determined by its members. */
  lemma SameMembers(xs: seq<Held>, part: seq<Held>, s: set<Held>)
    requires Distinct(xs) && multiset(part) <= multiset(xs)
    requires forall x | x in xs :: x in s <==> x in part
    ensures multiset(part) == multiset(Only(xs, s))
  {
    var t := set x | x in xs && x !in s;
    DistinctCounts(xs);
    OnlyPartitions(xs, s, t);
    OnlyMembers(xs, s);
    OnlyMembers(xs, t);
    hide Distinct, Only;
    forall x ensures multiset(part)[x] == multiset(Only(xs, s))[x] {
      assert multiset(xs)[x] == multiset(Only(xs, s))[x] + multiset(Only(xs, t))[x];
      Counted(part, x);
      Counted(Only(xs, s), x);
      Counted(Only(xs, t), x);
      assert multiset(part)[x] <= multiset(xs)[x];
    }
  }

  lemma Counted(xs: seq<Held>, x: Held)
    ensures multiset(xs)[x] > 0 <==> x in xs
  {}

  /** The two halves are the whole list, each entry once. */
  lemma {:induction false} SplitPartitions(facts: seq<Held>, maxTokens: int)
    requires Distinct(facts)
    ensures multiset(Working(facts, maxTokens)) + multiset(Overflow(facts, maxTokens)) == multiset(facts)
  {
    if Overfull(facts, maxTokens) {
      var s := Survivors(facts, maxTokens);
      SameMembers(facts, s, set x | x in s);
      OnlyPartitions(facts, set x | x in s, set x | x in facts && x !in s);
    }
  }

  /** The kept half, as it is rendered, is within the budget. */
  lemma {:induction false} WorkingFits(facts: seq<Held>, maxTokens: int)
    ensures Working(facts, maxTokens) == [] || Rendered(Working(facts, maxTokens)) <= maxTokens
  {
    if Overfull(facts, maxTokens) {
      var s := Survivors(facts, maxTokens);
      assert [] + s == s;
      RenderedGrows(ByTurn(s), s);
    }
  }

  // ---------------------------------------------------------------------------------
  // What the greedy walk keeps
  // ---------------------------------------------------------------------------------

  lemma {:induction false} GreedyTakesAll(order: seq<Held>, budget: int)
    requires Bullets(order) <= budget
    ensures Greedy(order, budget) == order
  {
    if order != [] {
      var init, last := order[..|order| - 1], order[|order| - 1];
      assert Bullets(order) == Bullets(init) + Bullet(last);
      hide Bullets, Bullet;
      GreedyTakesAll(init, budget);
      assert order == init + [last];
    }
  }

  lemma {:induction false} GreedyPrefix(order: seq<Held>, n: nat, budget: int)
    requires n <= |order|
    ensures Greedy(order[..n], budget) <= Greedy(order, budget)
    decreases |order|
  {
    if n < |order| {
      GreedyPrefix(order[..|order| - 1], n, budget);
      assert order[..|order| - 1][..n] == order[..n];
    } else {
      assert order[..n] == order;
    }
  }

  /** What the walk skips did not fit beside what it had taken. */
  lemma {:induction false} GreedySkips(order: seq<Held>, budget: int, x: Held) returns (i: nat)
    requires x in order && x !in Greedy(order, budget)
    ensures i < |order| && order[i] == x && Bullets(Greedy(order[..i], budget)) + Bullet(x) > budget
  {
    var init, last := order[..|order| - 1], order[|order| - 1];
    assert order == init + [last];
    if x == last {
      i := |init|;
    } else {
      i := GreedySkips(init, budget, x);
      assert init[..i] == order[..i];
    }
  }

  lemma GreedyFromOrder(order: seq<Held>, budget: int, last: Held)
    requires order != [] && Sorted(order, KeepFirst) && last == order[|order| - 1]
    ensures forall x | x in Greedy(order[..|order| - 1], budget) :: KeepFirst(x, last)
  {
    hide Greedy, KeepFirst;
    var init := order[..|order| - 1];
    forall x | x in Greedy(init, budget) ensures KeepFirst(x, last) {
      assert x in multiset(init);
      var k :| 0 <= k < |init| && init[k] == x;
      assert order[k] == x;
    }
  }

  lemma SortedSnoc(xs: seq<Held>, x: Held)
    requires Sorted(xs, KeepFirst) && forall y | y in xs :: KeepFirst(y, x)
    ensures Sorted(xs + [x], KeepFirst)
  {
    hide KeepFirst;
    var r := xs + [x];
    forall i, j | 0 <= i < j < |r| ensures KeepFirst(r[i], r[j]) {
      assert r[i] == xs[i];
    }
  }

  lemma {:induction false} GreedySorted(order: seq<Held>, budget: int)
    requires Sorted(order, KeepFirst)
    ensures Sorted(Greedy(order, budget), KeepFirst)
  {
    hide KeepFirst;
    if order != [] {
      var init, last := order[..|order| - 1], order[|order| - 1];
      assert Sorted(init, KeepFirst);
      GreedySorted(init, budget);
      GreedyFromOrder(order, budget, last);
      SortedSnoc(Greedy(init, budget), last);
    }
  }

  lemma DistinctSub(xs: seq<Held>, a: seq<Held>, b: seq<Held>)
    requires Distinct(xs) && multiset(a) <= multiset(xs)
    requires forall x | x in a :: x in b
    ensures multiset(a) <= multiset(b)
  {
    DistinctCounts(xs);
    forall x ensures multiset(a)[x] <= multiset(b)[x] {
      assert multiset(a)[x] <= multiset(xs)[x];
      assert x in multiset(a) <==> x in a;
      assert x in multiset(b) <==> x in b;
    }
  }

  lemma PinnedMembers(facts: seq<Held>)
    requires Distinct(facts)
    ensures forall x :: x in Pinned(facts) <==> x in facts && x.fact.pin
    ensures forall x :: x in Unpinned(facts) <==> x in facts && !x.fact.pin
    ensures multiset(Pinned(facts)) + multiset(Unpinned(facts)) == multiset(facts)
  {
    var p, u := set x | x in facts && x.fact.pin, set x | x in facts && !x.fact.pin;
    OnlyMembers(facts, p);
    OnlyMembers(facts, u);
    OnlyPartitions(facts, p, u);
  }

  /** The pinned facts are a stretch at the head of the keep order. */
  lemma PinsLead(facts: seq<Held>) returns (n: nat)
    requires Distinct(facts)
    ensures n <= |KeepOrder(facts)| && multiset(KeepOrder(facts)[..n]) == multiset(Pinned(facts))
  {
    hide KeepOrder, Distinct, SortBy, Reversed;
    var order := KeepOrder(facts);
    n := PinsEnd(order);
    var head := order[..n];
    PrefixSub(head, order);
    forall x | x in facts ensures x.fact.pin <==> x in head {
      assert x in multiset(order);
      var k :| 0 <= k < |order| && order[k] == x;
      assert k < n ==> head[k] == x;
    }
    SameMembers(facts, head, set x | x in facts && x.fact.pin);
  }

  lemma PinsEnd(order: seq<Held>) returns (n: nat)
    requires Sorted(order, KeepFirst)
    ensures n <= |order| && forall i | 0 <= i < |order| :: order[i].fact.pin <==> i < n
  {
    n := 0;
    while n < |order| && order[n].fact.pin
      invariant n <= |order| && forall i | 0 <= i < n :: order[i].fact.pin
    {
      n := n + 1;
    }
    forall i | n < i < |order| ensures !order[i].fact.pin { assert KeepFirst(order[n], order[i]); }
  }

  lemma PicksInOrder(facts: seq<Held>, maxTokens: int)
    ensures forall i, j | 0 <= i < j < |Picks(facts, maxTokens)| ::
              KeepFirst(Picks(facts, maxTokens)[i], Picks(facts, maxTokens)[j])
  {
    hide KeepFirst, Greedy, KeepOrder;
    GreedySorted(KeepOrder(facts), maxTokens - HEADER_TOKENS);
  }

  lemma SurvivorsLead(facts: seq<Held>, maxTokens: int)
    ensures Survivors(facts, maxTokens) <= Picks(facts, maxTokens)
  {
    hide Greedy, KeepOrder, Picks;
  }

  /** What settling drops of the picks ranks behind everything that it keeps, so no pin goes before an unpinned pick. */
  lemma SettlingDropsLowest(facts: seq<Held>, maxTokens: int)
    ensures forall i, j | 0 <= i < |Survivors(facts, maxTokens)| <= j < |Picks(facts, maxTokens)| ::
              && KeepFirst(Survivors(facts, maxTokens)[i], Picks(facts, maxTokens)[j])
              && (Picks(facts, maxTokens)[j].fact.pin ==> Survivors(facts, maxTokens)[i].fact.pin)
  {
    var kept, picks := Survivors(facts, maxTokens), Picks(facts, maxTokens);
    PicksInOrder(facts, maxTokens);
    SurvivorsLead(facts, maxTokens);
    hide Picks, Survivors, EvictFirst, KeepFirst;
    forall i, j | 0 <= i < |kept| <= j < |picks| ensures KeepFirst(kept[i], picks[j]) && (picks[j].fact.pin ==> kept[i].fact.pin) {
      assert kept[i] == picks[i];
      PinsRankFirst(kept[i], picks[j]);
    }
  }

  lemma PinsRankFirst(a: Held, b: Held)
    ensures KeepFirst(a, b) && b.fact.pin ==> a.fact.pin
  {}

  /** What is kept of an overfull store is the longest stretch of the picks that renders within budget. */
  lemma SurvivorsAreLongest(facts: seq<Held>, maxTokens: int)
    requires Overfull(facts, maxTokens)
    ensures Survivors(facts, maxTokens) <= Picks(facts, maxTokens)
    ensures Rendered(Survivors(facts, maxTokens)) <= maxTokens
    ensures forall n | |Survivors(facts, maxTokens)| < n <= |Picks(facts, maxTokens)| ::
              Rendered(Picks(facts, maxTokens)[..n]) > maxTokens
    ensures forall x :: x in Working(facts, maxTokens) <==> x in Survivors(facts, maxTokens)
    ensures multiset(Survivors(facts, maxTokens)) <= multiset(facts)
  {
    var s, picks := Survivors(facts, maxTokens), Picks(facts, maxTokens);
    hide Greedy, Settled, SortBy, Sorted, ByTurn, Bullets, Chars, Picks;
    assert [] + s == s;
    assert forall n | 0 <= n <= |picks| :: [] + picks[..n] == picks[..n];
    assert forall x :: x in ByTurn(s) <==> x in multiset(ByTurn(s));
    assert forall x :: x in s <==> x in multiset(s);
  }

  /** All pins stay in an overfull store when they fit by both measures ... */
  lemma FittingPinsStay(facts: seq<Held>, maxTokens: int)
    requires Distinct(facts) && Overfull(facts, maxTokens)
    requires Bullets(Pinned(facts)) <= maxTokens - HEADER_TOKENS && Rendered(Pinned(facts)) <= maxTokens
    ensures forall x | x in facts && x.fact.pin :: x in Working(facts, maxTokens)
  {
    hide *;
    var order, pins, s := KeepOrder(facts), Pinned(facts), Survivors(facts, maxTokens);
    var n := PinsLead(facts);
    var head := order[..n];
    PicksAreGreedy(facts, maxTokens);
    PinnedMembers(facts);
    SurvivorsAreLongest(facts, maxTokens);
    SumsGrow(head, pins);
    RenderedGrows(head, pins);
    GreedyTakesAll(head, maxTokens - HEADER_TOKENS);
    GreedyPrefix(order, n, maxTokens - HEADER_TOKENS);
    assert head <= Picks(facts, maxTokens);
    assert Picks(facts, maxTokens)[..n] == head;
    assert head <= s;
    forall x | x in facts && x.fact.pin ensures x in s {
      assert x in multiset(pins);
      assert x in multiset(head);
      assert x in head;
    }
  }

  /** ... and only then. */
  lemma StayingPinsFit(facts: seq<Held>, maxTokens: int)
    requires Distinct(facts) && Overfull(facts, maxTokens)
    requires forall x | x in facts && x.fact.pin :: x in Working(facts, maxTokens)
    ensures Bullets(Pinned(facts)) <= maxTokens - HEADER_TOKENS && Rendered(Pinned(facts)) <= maxTokens
  {
    hide *;
    var pins, picks, s := Pinned(facts), Picks(facts, maxTokens), Survivors(facts, maxTokens);
    SurvivorsAreLongest(facts, maxTokens);
    PicksAreGreedy(facts, maxTokens);
    PinnedMembers(facts);
    assert multiset(pins) <= multiset(facts);
    DistinctSub(facts, pins, s);
    SumsGrow(pins, s);
    RenderedGrows(pins, s);
    assert picks == s + picks[|s|..];
    SumsConcat(s, picks[|s|..]);
  }

  /** A fact that outranks a kept one is evicted only because it does not fit beside better ones. */
  lemma EvictedDoNotFit(facts: seq<Held>, maxTokens: int, f: Held, g: Held)
    requires Distinct(facts) && Overfull(facts, maxTokens)
    requires f in facts && f !in Working(facts, maxTokens) && g in Working(facts, maxTokens) && !KeepFirst(g, f)
    ensures var better := Only(Working(facts, maxTokens), set h | h in facts && KeepFirst(h, f));
            Bullets(better) + Bullet(f) > maxTokens - HEADER_TOKENS
  {
    var order, w := KeepOrder(facts), Working(facts, maxTokens);
    var i := OutrankedByTaken(facts, maxTokens, f, g);
    var taken := Greedy(order[..i], maxTokens - HEADER_TOKENS);
    var worth := set h | h in facts && KeepFirst(h, f);
    hide Greedy, Settled, SortBy, Sorted, Bullets, Rendered, Chars, Working, Distinct, EvictFirst, Only, KeepOrder;
    OnlyMembers(w, worth);
    DistinctSub(facts, taken, Only(w, worth));
    SumsGrow(taken, Only(w, worth));
  }

  /** The facts that left no room for `f` all stay, and all outrank it. */
  lemma OutrankedByTaken(facts: seq<Held>, maxTokens: int, f: Held, g: Held) returns (i: nat)
    requires Distinct(facts) && Overfull(facts, maxTokens)
    requires f in facts && f !in Working(facts, maxTokens) && g in Working(facts, maxTokens) && !KeepFirst(g, f)
    ensures i < |facts|
    ensures var taken := Greedy(KeepOrder(facts)[..i], maxTokens - HEADER_TOKENS);
            && Bullets(taken) + Bullet(f) > maxTokens - HEADER_TOKENS
            && multiset(taken) <= multiset(facts)
            && (forall x | x in taken :: x in Working(facts, maxTokens) && x in facts && KeepFirst(x, f))
  {
    hide *;
    var body, order, picks, s := maxTokens - HEADER_TOKENS, KeepOrder(facts), Picks(facts, maxTokens),
                                 Survivors(facts, maxTokens);
    PicksAreGreedy(facts, maxTokens);
    assert f in order by { assert f in multiset(order); }
    GreedySorted(order, body);
    SurvivorsAreLongest(facts, maxTokens);
    var j :| 0 <= j < |s| && s[j] == g;
    assert f !in picks by { NotPicked(picks, s, f, g); }
    i := GreedySkips(order, body, f);
    var taken := Greedy(order[..i], body);
    GreedyPrefix(order, i, body);
    forall x | x in taken ensures KeepFirst(x, f) {
      assert x in multiset(order[..i]);
      var k :| 0 <= k < i && order[..i][k] == x;
      assert order[k] == x;
      SortedAt(order, KeepFirst, k, i);
    }
    assert |taken| <= j;
    assert taken <= s;
    assert order == order[..i] + order[i..];
    assert multiset(taken) <= multiset(order);
    forall x | x in taken ensures x in s && x in facts {
      assert x in multiset(taken) && x in multiset(facts);
    }
  }

  lemma SortedAt<T(!new)>(xs: seq<T>, le: (T, T) -> bool, i: nat, j: nat)
    requires Sorted(xs, le) && i < j < |xs|
    ensures le(xs[i], xs[j])
  {}

  lemma NotPicked(picks: seq<Held>, s: seq<Held>, f: Held, g: Held)
    requires Sorted(picks, KeepFirst) && s <= picks && f !in s && g in s && !KeepFirst(g, f)
    ensures f !in picks
  {
    var j :| 0 <= j < |s| && s[j] == g;
    assert forall m | 0 <= m < |picks| :: picks[m] == f ==> m <= j;
  }

  // ---------------------------------------------------------------------------------
  // The facts chosen for a prompt
  // ---------------------------------------------------------------------------------

  /** The unpinned facts ordered by similarity to the query; `Unranked` when no ranking could run. */
  datatype Ranking = Unranked | Ranked(order: seq<Held>)

  predicate Ranks(ranking: Ranking, rest: seq<Held>) {
    ranking.Ranked? ==> multiset(ranking.order) == multiset(rest)
  }

  function Priority(rest: seq<Held>, hasQuery: bool, ranking: Ranking): (r: seq<Held>)
    requires Ranks(ranking, rest)
    ensures multiset(r) == multiset(rest) && |r| == |rest|
  {
    assert ranking.Ranked? ==> |multiset(ranking.order)| == |multiset(rest)|;
    if hasQuery && ranking.Ranked? then ranking.order else SortBy(rest, FreshFirst)
  }

  function Rest(rest: seq<Held>, budget: int, hasQuery: bool, ranking: Ranking): (r: seq<Held>)
    requires Ranks(ranking, rest)
    ensures multiset(r) <= multiset(rest)
  {
    if rest == [] || budget <= 0 then [] else ByTurn(Greedy(Priority(rest, hasQuery, ranking), budget))
  }

  function Injected(facts: seq<Held>, maxTokens: int, hasQuery: bool, ranking: Ranking): seq<Held>
    requires Ranks(ranking, Unpinned(facts))
  {
    var pins, rest := ByTurn(Pinned(facts)), Unpinned(facts);
    if facts == [] then []
    else if pins == [] && !hasQuery then Working(facts, maxTokens)
    else if pins == [] then
      if HEADER_TOKENS > maxTokens then []
      else Settled([], Rest(rest, maxTokens - HEADER_TOKENS, hasQuery, ranking), maxTokens)
    else if Rendered(pins) >= maxTokens then pins
    else pins + Settled(pins, Rest(rest, maxTokens - Rendered(pins), hasQuery, ranking), maxTokens)
  }

  method SelectRest(rest: seq<Held>, budget: int, hasQuery: bool, ranking: Ranking) returns (kept: seq<Held>)
    requires Ranks(ranking, rest)
    ensures kept == Rest(rest, budget, hasQuery, ranking)
  {
    if rest == [] || budget <= 0 { return []; }
    var picks := GreedyWalk(Priority(rest, hasQuery, ranking), budget);
    kept := ByTurn(picks);
  }

  method SelectForInjection(facts: seq<Held>, maxTokens: int, hasQuery: bool, ranking: Ranking)
    returns (kept: seq<Held>)
    requires Distinct(facts) && Ranks(ranking, Unpinned(facts))
    ensures kept == Injected(facts, maxTokens, hasQuery, ranking)
  {
    hide Greedy, Settled, SortBy, Sorted, ByTurn, Bullets, Chars, Working, Rest;
    if facts == [] { return []; }
    var pins := ByTurn(Pinned(facts));
    if pins == [] && !hasQuery {
      var evicted;
      kept, evicted := LruSplit(facts, maxTokens);
      return;
    }
    var rest := Unpinned(facts);
    if pins == [] {
      if HEADER_TOKENS > maxTokens { return []; }
      var selected := SelectRest(rest, maxTokens - HEADER_TOKENS, hasQuery, ranking);
      kept := Settle([], selected, maxTokens);
      return;
    }
    if Rendered(pins) >= maxTokens { return pins; }
    var selected := SelectRest(rest, maxTokens - Rendered(pins), hasQuery, ranking);
    selected := Settle(pins, selected, maxTokens);
    kept := pins + selected;
  }

  /** The picks that the order of priority puts ahead of a fact: by the ranking if there is one, else by use
      and then by age. */
  ghost function Ahead(f: Held, picks: seq<Held>, hasQuery: bool, ranking: Ranking): set<Held> {
    if hasQuery && ranking.Ranked? then
      set x | x in picks && exists i, j :: 0 <= i < j < |ranking.order| && ranking.order[i] == x && ranking.order[j] == f
    else
      set x | x in picks && (x.fact.lastUsed > f.fact.lastUsed
                             || (x.fact.lastUsed == f.fact.lastUsed && x.fact.addedTurn >= f.fact.addedTurn))
  }

  /** The facts that a walk in the order of priority takes, oldest first: what is left out has no room beside
      those ahead of it. */
  ghost predicate ByPriority(picks: seq<Held>, rest: seq<Held>, budget: int, hasQuery: bool, ranking: Ranking) {
    && multiset(picks) <= multiset(rest) && (picks == [] || Bullets(picks) <= budget)
    && (forall i, j | 0 <= i < j < |picks| :: picks[i].fact.addedTurn <= picks[j].fact.addedTurn)
    && forall f | f in rest && f !in picks ::
         budget <= 0 || Bullets(Only(picks, Ahead(f, picks, hasQuery, ranking))) + Bullet(f) > budget
  }

  lemma RestIsWalk(rest: seq<Held>, budget: int, hasQuery: bool, ranking: Ranking)
    requires Ranks(ranking, rest) && budget > 0
    ensures multiset(Rest(rest, budget, hasQuery, ranking)) == multiset(Greedy(Priority(rest, hasQuery, ranking), budget))
  {
    var order := Priority(rest, hasQuery, ranking);
    assert rest == [] ==> order == [];
    hide Priority, SortBy;
  }

  lemma LeftOut(rest: seq<Held>, budget: int, hasQuery: bool, ranking: Ranking, f: Held)
    requires Distinct(rest) && Ranks(ranking, rest) && budget > 0 && f in rest
    requires f !in Rest(rest, budget, hasQuery, ranking)
    ensures var picks := Rest(rest, budget, hasQuery, ranking);
            Bullets(Only(picks, Ahead(f, picks, hasQuery, ranking))) + Bullet(f) > budget
  {
    hide *;
    var order, picks := Priority(rest, hasQuery, ranking), Rest(rest, budget, hasQuery, ranking);
    RestIsWalk(rest, budget, hasQuery, ranking);
    assert f in multiset(order) && f !in multiset(picks);
    var i := GreedySkips(order, budget, f);
    var taken := Greedy(order[..i], budget);
    GreedyPrefix(order, i, budget);
    PrefixSub(taken, Greedy(order, budget));
    forall x | x in taken ensures x in picks && x in Ahead(f, picks, hasQuery, ranking) {
      assert x in multiset(taken) && x in multiset(order[..i]) && x in multiset(picks);
      var k :| 0 <= k < i && order[..i][k] == x;
      AheadAt(rest, hasQuery, ranking, picks, k, i);
    }
    OnlyMembers(picks, Ahead(f, picks, hasQuery, ranking));
    DistinctSub(rest, taken, Only(picks, Ahead(f, picks, hasQuery, ranking)));
    SumsGrow(taken, Only(picks, Ahead(f, picks, hasQuery, ranking)));
  }

  lemma AheadAt(rest: seq<Held>, hasQuery: bool, ranking: Ranking, picks: seq<Held>, k: nat, i: nat)
    requires Ranks(ranking, rest) && k < i < |rest|
    ensures var order := Priority(rest, hasQuery, ranking);
            order[k] in picks ==> order[k] in Ahead(order[i], picks, hasQuery, ranking)
  {
    var order := Priority(rest, hasQuery, ranking);
    if !(hasQuery && ranking.Ranked?) { SortedAt(order, FreshFirst, k, i); }
  }

  /** The facts beside the pins are the longest stretch, oldest first, of what a walk by priority takes, that
      renders within the budget. */
  lemma InjectsByPriority(facts: seq<Held>, maxTokens: int, hasQuery: bool, ranking: Ranking)
    requires Distinct(facts) && Ranks(ranking, Unpinned(facts)) && (hasQuery || Pinned(facts) != [])
    ensures var pins := ByTurn(Pinned(facts));
            var budget := maxTokens - if pins == [] then HEADER_TOKENS else Rendered(pins);
            exists picks, n: nat | ByPriority(picks, Unpinned(facts), budget, hasQuery, ranking) && n <= |picks| ::
              && Injected(facts, maxTokens, hasQuery, ranking) == pins + picks[..n]
              && (n == 0 || Rendered(pins + picks[..n]) <= maxTokens)
              && forall m | n < m <= |picks| :: Rendered(pins + picks[..m]) > maxTokens
  {
    hide *;
    var pins, rest := ByTurn(Pinned(facts)), Unpinned(facts);
    var budget := maxTokens - if pins == [] then HEADER_TOKENS else Rendered(pins);
    var picks := Rest(rest, budget, hasQuery, ranking);
    var kept := Settled(pins, picks, maxTokens);
    RestByPriority(facts, budget, hasQuery, ranking);
    InjectedIs(facts, maxTokens, hasQuery, ranking);
    assert kept == picks[..|kept|];
    assert kept == [] ==> |kept| == 0;
  }

  lemma InjectedIs(facts: seq<Held>, maxTokens: int, hasQuery: bool, ranking: Ranking)
    requires Ranks(ranking, Unpinned(facts)) && (hasQuery || Pinned(facts) != [])
    ensures var pins := ByTurn(Pinned(facts));
            var budget := maxTokens - if pins == [] then HEADER_TOKENS else Rendered(pins);
            Injected(facts, maxTokens, hasQuery, ranking)
            == pins + Settled(pins, Rest(Unpinned(facts), budget, hasQuery, ranking), maxTokens)
  {
    hide *;
    if Pinned(facts) != [] {
      var pins := ByTurn(Pinned(facts));
      InjectedPinned(facts, maxTokens, hasQuery, ranking);
      if Rendered(pins) >= maxTokens {
        NoneBeside(facts, pins, maxTokens - Rendered(pins), maxTokens, hasQuery, ranking);
      }
    } else {
      InjectedWithoutPins(facts, maxTokens, hasQuery, ranking);
    }
  }

  lemma InjectedWithoutPins(facts: seq<Held>, maxTokens: int, hasQuery: bool, ranking: Ranking)
    requires Ranks(ranking, Unpinned(facts)) && hasQuery && Pinned(facts) == []
    ensures ByTurn(Pinned(facts)) == []
    ensures Injected(facts, maxTokens, hasQuery, ranking)
         == [] + Settled([], Rest(Unpinned(facts), maxTokens - HEADER_TOKENS, hasQuery, ranking), maxTokens)
  {
    hide *;
    var settled := Settled([], Rest(Unpinned(facts), maxTokens - HEADER_TOKENS, hasQuery, ranking), maxTokens);
    assert [] + settled == settled;
    if facts == [] || HEADER_TOKENS > maxTokens {
      NoneBeside(facts, [], maxTokens - HEADER_TOKENS, maxTokens, hasQuery, ranking);
      InjectedNothing(facts, maxTokens, hasQuery, ranking);
    } else {
      InjectedUnpinned(facts, maxTokens, hasQuery, ranking);
    }
  }

  lemma NoneBeside(facts: seq<Held>, pins: seq<Held>, budget: int, maxTokens: int, hasQuery: bool, ranking: Ranking)
    requires Ranks(ranking, Unpinned(facts)) && (facts == [] || budget <= 0)
    ensures Settled(pins, Rest(Unpinned(facts), budget, hasQuery, ranking), maxTokens) == []
    ensures pins + Settled(pins, Rest(Unpinned(facts), budget, hasQuery, ranking), maxTokens) == pins
  {}

  lemma RestByPriority(facts: seq<Held>, budget: int, hasQuery: bool, ranking: Ranking)
    requires Distinct(facts) && Ranks(ranking, Unpinned(facts))
    ensures ByPriority(Rest(Unpinned(facts), budget, hasQuery, ranking), Unpinned(facts), budget, hasQuery, ranking)
  {
    hide Distinct, Ranks, Ahead, FreshFirst, Only, Bullets, Greedy, Priority, SortBy;
    var rest, picks := Unpinned(facts), Rest(Unpinned(facts), budget, hasQuery, ranking);
    UnpinnedDistinct(facts);
    if budget > 0 { RestFits(rest, budget, hasQuery, ranking); }
    forall f | f in rest && f !in picks && budget > 0
      ensures Bullets(Only(picks, Ahead(f, picks, hasQuery, ranking))) + Bullet(f) > budget
    {
      LeftOut(rest, budget, hasQuery, ranking, f);
    }
  }

  lemma {:induction false} OnlyDistinct(xs: seq<Held>, s: set<Held>)
    requires Distinct(xs)
    ensures Distinct(Only(xs, s))
  {
    if xs != [] {
      var init, last := xs[..|xs| - 1], xs[|xs| - 1];
      OnlyDistinct(init, s);
      OnlyMembers(init, s);
      forall x | x in Only(init, s) ensures x.id != last.id {
        var i :| 0 <= i < |init| && init[i] == x;
        assert xs[i] == x;
      }
    }
  }

  lemma UnpinnedDistinct(facts: seq<Held>)
    requires Distinct(facts)
    ensures Distinct(Unpinned(facts))
  {
    OnlyDistinct(facts, set x | x in facts && !x.fact.pin);
  }

  lemma InjectedNothing(facts: seq<Held>, maxTokens: int, hasQuery: bool, ranking: Ranking)
    requires Ranks(ranking, Unpinned(facts)) && Pinned(facts) == [] && (facts == [] || HEADER_TOKENS > maxTokens)
    ensures Injected(facts, maxTokens, hasQuery, ranking) == []
  {}

  /** Nothing is invented or repeated. */
  lemma InjectionSelects(facts: seq<Held>, maxTokens: int, hasQuery: bool, ranking: Ranking)
    requires Distinct(facts) && Ranks(ranking, Unpinned(facts))
    ensures multiset(Injected(facts, maxTokens, hasQuery, ranking)) <= multiset(facts)
  {
    hide *;
    if hasQuery || Pinned(facts) != [] {
      var pins := ByTurn(Pinned(facts));
      var budget := maxTokens - if pins == [] then HEADER_TOKENS else Rendered(pins);
      var selected := Rest(Unpinned(facts), budget, hasQuery, ranking);
      InjectedIs(facts, maxTokens, hasQuery, ranking);
      PinnedMembers(facts);
      PrefixSub(Settled(pins, selected, maxTokens), selected);
      Combined(pins, Settled(pins, selected, maxTokens), multiset(Unpinned(facts)));
    } else if facts != [] && HEADER_TOKENS <= maxTokens {
      InjectedUnpinned(facts, maxTokens, hasQuery, ranking);
      SplitPartitions(facts, maxTokens);
    } else {
      InjectedNothing(facts, maxTokens, hasQuery, ranking);
    }
  }

  /** Every pinned fact reaches the prompt, whatever the budget, the query and the ranking. */
  lemma {:induction false} InjectionKeepsPins(facts: seq<Held>, maxTokens: int, hasQuery: bool, ranking: Ranking)
    requires Distinct(facts) && Ranks(ranking, Unpinned(facts))
    ensures forall x | x in facts && x.fact.pin :: x in Injected(facts, maxTokens, hasQuery, ranking)
  {
    hide Greedy, Settled, SortBy, Sorted, ByTurn, Bullets, Chars, Working, Overflow, Pinned, Unpinned, Rest, Priority,
      Rendered, Distinct, Ranks;
    PinnedMembers(facts);
    forall x | x in facts && x.fact.pin ensures x in ByTurn(Pinned(facts)) { assert x in multiset(Pinned(facts)); }
  }

  lemma Combined(a: seq<Held>, b: seq<Held>, c: multiset<Held>)
    requires multiset(b) <= c
    ensures multiset(a + b) <= multiset(a) + c
  {}

  /** The block is within the budget unless the pins alone are not, and then it is the pins alone. */
  lemma {:induction false} InjectionFits(facts: seq<Held>, maxTokens: int, hasQuery: bool, ranking: Ranking)
    requires Distinct(facts) && Ranks(ranking, Unpinned(facts))
    ensures var r := Injected(facts, maxTokens, hasQuery, ranking);
            || r == []
            || Rendered(r) <= maxTokens
            || (r == ByTurn(Pinned(facts)) && Rendered(Pinned(facts)) > maxTokens)
  {
    hide Greedy, Settled, SortBy, Sorted, ByTurn, Bullets, Chars, Working, Only, Rest, Priority, Rendered;
    WorkingFits(facts, maxTokens);
    RenderedGrows(ByTurn(Pinned(facts)), Pinned(facts));
    var pins, rest := ByTurn(Pinned(facts)), Unpinned(facts);
    var budget := if pins == [] then maxTokens - HEADER_TOKENS else maxTokens - Rendered(pins);
    var settled := Settled(pins, Rest(rest, budget, hasQuery, ranking), maxTokens);
    assert settled == [] ==> pins + settled == pins;
    assert pins == [] ==> pins + settled == settled;
  }

  /** When a store that fits the budget reaches the prompt whole. */
  predicate InjectsAll(facts: seq<Held>, maxTokens: int, hasQuery: bool) {
    if Pinned(facts) == [] then
      !hasQuery || (HEADER_TOKENS < maxTokens && Bullets(facts) <= maxTokens - HEADER_TOKENS)
    else
      Unpinned(facts) == [] || Rendered(Pinned(facts)) < maxTokens
  }

  lemma {:induction false} SortedSums(a: seq<Held>, b: seq<Held>)
    requires multiset(a) == multiset(b)
    ensures Rendered(a) == Rendered(b) && Bullets(a) == Bullets(b) && Chars(a) == Chars(b) && |a| == |b|
  {
    SumsGrow(a, b);
    SumsGrow(b, a);
    RenderedGrows(a, b);
    RenderedGrows(b, a);
    assert |multiset(a)| == |a| && |multiset(b)| == |b|;
  }

  /** A walk with room for every line, settled against a render that fits, drops nothing. */
  lemma RestIsWhole(pins: seq<Held>, rest: seq<Held>, budget: int, maxTokens: int, hasQuery: bool, ranking: Ranking)
    requires Ranks(ranking, rest) && budget > 0 && Bullets(rest) <= budget && Rendered(pins + rest) <= maxTokens
    ensures multiset(Settled(pins, Rest(rest, budget, hasQuery, ranking), maxTokens)) == multiset(rest)
  {
    var order := Priority(rest, hasQuery, ranking);
    SortedSums(order, rest);
    GreedyTakesAll(order, budget);
    var selected := Rest(rest, budget, hasQuery, ranking);
    assert multiset(selected) == multiset(rest);
    assert multiset(pins + selected) == multiset(pins + rest);
    SortedSums(pins + selected, pins + rest);
    hide Greedy, SortBy, Sorted, ByTurn, Bullets, Chars, Rest, Priority, Rendered, Ranks;
  }

  lemma {:induction false} Sizes(facts: seq<Held>, all: seq<Held>, pins: seq<Held>, rest: seq<Held>)
    requires multiset(pins) + multiset(rest) == multiset(facts)
    ensures |pins| + |rest| == |facts| && (multiset(all) == multiset(facts) ==> |all| == |facts|)
    ensures Chars(pins) + Chars(rest) == Chars(facts) && Rendered(pins + rest) == Rendered(facts)
    ensures pins == [] ==> Bullets(rest) == Bullets(facts)
    ensures multiset(all) == multiset(facts) ==> Bullets(all) == Bullets(facts)
  {
    hide *;
    SumsConcat(pins, rest);
    SortedSums(pins + rest, facts);
    assert pins == [] ==> pins + rest == rest;
    if multiset(all) == multiset(facts) { SortedSums(all, facts); }
  }

  lemma InjectedUnpinned(facts: seq<Held>, maxTokens: int, hasQuery: bool, ranking: Ranking)
    requires Ranks(ranking, Unpinned(facts)) && facts != [] && Pinned(facts) == [] && HEADER_TOKENS <= maxTokens
    ensures Injected(facts, maxTokens, hasQuery, ranking) ==
            if hasQuery then Settled([], Rest(Unpinned(facts), maxTokens - HEADER_TOKENS, hasQuery, ranking), maxTokens)
            else Working(facts, maxTokens)
    ensures Rendered(facts) <= maxTokens ==> Working(facts, maxTokens) == facts
    ensures InjectsAll(facts, maxTokens, hasQuery) <==>
            !hasQuery || (HEADER_TOKENS < maxTokens && Bullets(facts) <= maxTokens - HEADER_TOKENS)
  {
    hide Settled, Rest, Pinned, Unpinned, Bullets, Rendered, Survivors, Ranks;
  }

  lemma NothingLeftOver(maxTokens: int, rest: seq<Held>, hasQuery: bool, ranking: Ranking)
    requires Ranks(ranking, rest)
    ensures Settled([], Rest(rest, 0, hasQuery, ranking), maxTokens) == []
  {}

  lemma UnpinnedInjectsAll(facts: seq<Held>, maxTokens: int, hasQuery: bool, ranking: Ranking)
    requires Distinct(facts) && Ranks(ranking, Unpinned(facts)) && Pinned(facts) == []
    requires facts != [] && HEADER_TOKENS <= maxTokens && Rendered(facts) <= maxTokens
    ensures multiset(Injected(facts, maxTokens, hasQuery, ranking)) == multiset(facts) <==>
            InjectsAll(facts, maxTokens, hasQuery)
  {
    hide *;
    var rest, all, budget := Unpinned(facts), Injected(facts, maxTokens, hasQuery, ranking), maxTokens - HEADER_TOKENS;
    PinnedMembers(facts);
    Sizes(facts, all, [], rest);
    InjectedUnpinned(facts, maxTokens, hasQuery, ranking);
    if hasQuery {
      assert [] + rest == rest;
      if budget == 0 {
        NothingLeftOver(maxTokens, rest, hasQuery, ranking);
      } else if Bullets(facts) <= budget {
        RestIsWhole([], rest, budget, maxTokens, hasQuery, ranking);
      } else {
        var selected := Rest(rest, budget, hasQuery, ranking);
        RestFits(rest, budget, hasQuery, ranking);
        PrefixSub(all, selected);
        SumsGrow(all, selected);
      }
    }
  }

  lemma RestFits(rest: seq<Held>, budget: int, hasQuery: bool, ranking: Ranking)
    requires Ranks(ranking, rest) && budget > 0
    ensures Bullets(Rest(rest, budget, hasQuery, ranking)) <= budget
  {
    var picks := Greedy(Priority(rest, hasQuery, ranking), budget);
    SortedSums(ByTurn(picks), picks);
  }

  lemma InjectedPinned(facts: seq<Held>, maxTokens: int, hasQuery: bool, ranking: Ranking)
    requires Ranks(ranking, Unpinned(facts)) && Pinned(facts) != []
    ensures var pins := ByTurn(Pinned(facts));
            Injected(facts, maxTokens, hasQuery, ranking) ==
            if Rendered(pins) >= maxTokens then pins
            else pins + Settled(pins, Rest(Unpinned(facts), maxTokens - Rendered(pins), hasQuery, ranking), maxTokens)
    ensures InjectsAll(facts, maxTokens, hasQuery) <==> Unpinned(facts) == [] || Rendered(Pinned(facts)) < maxTokens
  {
    hide Settled, Rest, Unpinned, Bullets, Rendered, Ranks;
  }

  /** The lines cost at most the growth of the rendered block. */
  lemma RestUndercuts(facts: seq<Held>, pins: seq<Held>, rest: seq<Held>)
    requires pins != [] && facts != [] && Chars(pins) + Chars(rest) == Chars(facts)
    ensures Bullets(rest) <= Rendered(facts) - Rendered(pins)
  {
    FloorsLose(rest);
  }

  lemma PinnedInjectsAll(facts: seq<Held>, maxTokens: int, hasQuery: bool, ranking: Ranking)
    requires Distinct(facts) && Ranks(ranking, Unpinned(facts)) && Pinned(facts) != []
    requires facts != [] && Rendered(facts) <= maxTokens
    ensures multiset(Injected(facts, maxTokens, hasQuery, ranking)) == multiset(facts) <==>
            InjectsAll(facts, maxTokens, hasQuery)
  {
    hide *;
    var pins, rest, all := ByTurn(Pinned(facts)), Unpinned(facts), Injected(facts, maxTokens, hasQuery, ranking);
    PinnedMembers(facts);
    SortedSums(pins, Pinned(facts));
    Sizes(facts, all, pins, rest);
    InjectedPinned(facts, maxTokens, hasQuery, ranking);
    if Rendered(pins) < maxTokens {
      RestUndercuts(facts, pins, rest);
      RestIsWhole(pins, rest, maxTokens - Rendered(pins), maxTokens, hasQuery, ranking);
    } else if rest == [] {
      assert multiset(all) == multiset(facts);
    }
  }

  /** A store that fits is injected whole exactly when `InjectsAll` says so. */
  lemma InjectsAllExactly(facts: seq<Held>, maxTokens: int, hasQuery: bool, ranking: Ranking)
    requires Distinct(facts) && Ranks(ranking, Unpinned(facts))
    requires facts != [] && HEADER_TOKENS <= maxTokens && Rendered(facts) <= maxTokens
    ensures multiset(Injected(facts, maxTokens, hasQuery, ranking)) == multiset(facts) <==>
            InjectsAll(facts, maxTokens, hasQuery)
  {
    hide *;
    if Pinned(facts) == [] {
      UnpinnedInjectsAll(facts, maxTokens, hasQuery, ranking);
    } else {
      PinnedInjectsAll(facts, maxTokens, hasQuery, ranking);
    }
  }

  /** With a query, a store that fits the budget to the token can be left out entirely. */
  lemma FittingStoreLeftOut(x: Held)
    requires |x.fact.text| == 1 && !x.fact.pin
    ensures Rendered([x]) == HEADER_TOKENS
    ensures Injected([x], HEADER_TOKENS, true, Unranked) == []
  {
    hide Greedy, Settled, SortBy, Pinned, Unpinned, Only, Chars, Bullets, Injected;
    OneShortLine(x);
    NoPins(x);
    InjectedUnpinned([x], HEADER_TOKENS, true, Unranked);
    NothingLeftOver(HEADER_TOKENS, Unpinned([x]), true, Unranked);
  }

  lemma OneShortLine(x: Held)
    requires |x.fact.text| == 1
    ensures Rendered([x]) == HEADER_TOKENS
  {
    assert Chars([x]) == 4 by { assert [x][..0] == []; }
  }

  lemma NoPins(x: Held)
    requires !x.fact.pin
    ensures Pinned([x]) == [] && Ranks(Unranked, Unpinned([x]))
  {
    PinnedMembers([x]);
    hide Pinned, Unpinned, Only;
    assert forall y :: y !in Pinned([x]);
  }
}
