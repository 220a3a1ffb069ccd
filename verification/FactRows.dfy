/** The rows of the fact store, shared by every module that moves or ranks them. */
module FactRows {

  /** A stored fact. `archived_at`, which only the cold sidecar carries, is not modelled. */
  datatype Fact = Fact(text: string, addedTurn: int, lastUsed: int, pin: bool)

  function Texts(facts: seq<Fact>): (ts: set<string>)
    ensures forall t :: t in ts <==> exists k :: 0 <= k < |facts| && facts[k].text == t
  {
    set f | f in facts :: f.text
  }

  lemma TextsConcat(a: seq<Fact>, b: seq<Fact>)
    ensures Texts(a + b) == Texts(a) + Texts(b)
  {
    forall t ensures t in Texts(a + b) <==> t in Texts(a) + Texts(b) {
      if t in Texts(a) {
        var k :| 0 <= k < |a| && a[k].text == t;
        assert (a + b)[k].text == t;
      }
      if t in Texts(b) {
        var k :| 0 <= k < |b| && b[k].text == t;
        assert (a + b)[|a| + k].text == t;
      }
    }
  }

  /** _merge_fact_pin_and_recency: the surviving copy takes on the other's protection. */
  function FoldIn(dst: Fact, src: Fact): (r: Fact)
    ensures r.text == dst.text && r.addedTurn == dst.addedTurn
    ensures r.pin == (dst.pin || src.pin) && r.lastUsed >= dst.lastUsed && r.lastUsed >= src.lastUsed
  {
    dst.(pin := dst.pin || src.pin, lastUsed := if src.lastUsed > dst.lastUsed then src.lastUsed else dst.lastUsed)
  }

  /** What stands at the positions `at` of a list, each once and in their order. */
  ghost predicate StandsAt<T>(r: seq<T>, rows: seq<T>, at: seq<nat>) {
    && |r| == |at|
    && (forall k | 0 <= k < |at| :: at[k] < |rows| && r[k] == rows[at[k]])
    && (forall j, k | 0 <= j < k < |at| :: at[j] < at[k])
  }

  ghost predicate Chooses<T(!new)>(at: seq<nat>, rows: seq<T>, p: T -> bool) {
    forall i | 0 <= i < |rows| :: i in at <==> p(rows[i])
  }

  /** The elements of a list that meet a condition: every one of them, as often and in the order as they stand. */
  ghost predicate Filters<T(!new)>(r: seq<T>, rows: seq<T>, p: T -> bool) {
    exists at: seq<nat> :: StandsAt(r, rows, at) && Chooses(at, rows, p)
  }

  lemma StandsSnoc<T>(r: seq<T>, rows: seq<T>, at: seq<nat>, x: T)
    requires StandsAt(r, rows, at)
    ensures StandsAt(r, rows + [x], at) && StandsAt(r + [x], rows + [x], at + [|rows|])
  {
    assert forall k | 0 <= k < |at| :: (at + [|rows|])[k] == at[k] && (rows + [x])[at[k]] == rows[at[k]];
  }

  lemma ChoosesSnoc<T(!new)>(r: seq<T>, rows: seq<T>, at: seq<nat>, p: T -> bool, x: T)
    requires StandsAt(r, rows, at) && Chooses(at, rows, p)
    ensures Chooses(if p(x) then at + [|rows|] else at, rows + [x], p)
  {
    var more := if p(x) then at + [|rows|] else at;
    forall i | 0 <= i < |rows + [x]| ensures i in more <==> p((rows + [x])[i]) {
      assert i in more <==> i in at || (p(x) && i == |rows|);
    }
  }

  lemma FiltersSnoc<T(!new)>(r: seq<T>, rows: seq<T>, p: T -> bool, x: T)
    requires Filters(r, rows, p)
    ensures Filters(if p(x) then r + [x] else r, rows + [x], p)
  {
    hide StandsAt, Chooses;
    var at :| StandsAt(r, rows, at) && Chooses(at, rows, p);
    StandsSnoc(r, rows, at, x);
    ChoosesSnoc(r, rows, at, p, x);
  }

  lemma FiltersNothing<T(!new)>(p: T -> bool)
    ensures Filters([], [], p)
  {
    assert StandsAt<T>([], [], []);
  }

  // ---------------------------------------------------------------------------------
  // sorted() and list.sort(), which are stable
  // ---------------------------------------------------------------------------------

  ghost predicate Orders<T(!new)>(le: (T, T) -> bool) {
    && (forall a, b :: le(a, b) || le(b, a))
    && (forall a, b, c :: le(a, b) && le(b, c) ==> le(a, c))
  }

  ghost predicate Sorted<T(!new)>(xs: seq<T>, le: (T, T) -> bool) {
    forall i, j | 0 <= i < j < |xs| :: le(xs[i], xs[j])
  }

  /** Where an element goes: behind every element that is not greater. */
  function Slot<T(!new)>(sorted: seq<T>, x: T, le: (T, T) -> bool): (p: nat)
    requires Orders(le) && Sorted(sorted, le)
    ensures p <= |sorted|
    ensures forall i | 0 <= i < p :: le(sorted[i], x)
    ensures forall i | p <= i < |sorted| :: !le(sorted[i], x)
  {
    if sorted == [] || le(sorted[|sorted| - 1], x) then |sorted| else Slot(sorted[..|sorted| - 1], x, le)
  }

  lemma InsertKeeps<T(!new)>(sorted: seq<T>, x: T, p: nat, le: (T, T) -> bool)
    requires Orders(le) && Sorted(sorted, le) && p <= |sorted|
    requires forall i | 0 <= i < p :: le(sorted[i], x)
    requires forall i | p <= i < |sorted| :: !le(sorted[i], x)
    ensures Sorted(sorted[..p] + [x] + sorted[p..], le)
    ensures multiset(sorted[..p] + [x] + sorted[p..]) == multiset(sorted) + multiset{x}
  {
    var r := sorted[..p] + [x] + sorted[p..];
    assert sorted == sorted[..p] + sorted[p..];
    forall i, j | 0 <= i < j < |r| ensures le(r[i], r[j]) {
      assert r[i] == if i < p then sorted[i] else if i == p then x else sorted[i - 1];
      assert r[j] == if j < p then sorted[j] else if j == p then x else sorted[j - 1];
    }
  }

  function SortBy<T(!new)>(xs: seq<T>, le: (T, T) -> bool): (r: seq<T>)
    requires Orders(le)
    ensures Sorted(r, le) && multiset(r) == multiset(xs) && |r| == |xs|
  {
    if xs == [] then [] else
      var init, x := SortBy(xs[..|xs| - 1], le), xs[|xs| - 1];
      var p := Slot(init, x, le);
      assert xs == xs[..|xs| - 1] + [x];
      InsertKeeps(init, x, p, le);
      init[..p] + [x] + init[p..]
  }

  /** `at` puts the elements in order, and equal ones as they stood. */
  ghost predicate Arranges<T(!new)>(at: seq<nat>, xs: seq<T>, le: (T, T) -> bool) {
    && |at| == |xs|
    && (forall k | 0 <= k < |at| :: at[k] < |xs|)
    && (forall i | 0 <= i < |xs| :: i in at)
    && (forall j, k | 0 <= j < k < |at| :: at[j] != at[k] && le(xs[at[j]], xs[at[k]]) && (le(xs[at[k]], xs[at[j]]) ==> at[j] < at[k]))
  }

  lemma ArrangeOne<T(!new)>(at: seq<nat>, xs: seq<T>, x: T, p: nat, le: (T, T) -> bool)
    requires Arranges(at, xs, le) && p <= |at|
    requires forall i | 0 <= i < p :: le(xs[at[i]], x)
    requires forall i | p <= i < |at| :: le(x, xs[at[i]]) && !le(xs[at[i]], x)
    ensures Arranges(at[..p] + [|xs|] + at[p..], xs + [x], le)
  {
    var more, all := at[..p] + [|xs|] + at[p..], xs + [x];
    assert forall k | 0 <= k < |more| :: more[k] == if k < p then at[k] else if k == p then |xs| else at[k - 1];
    forall i | 0 <= i < |all| ensures i in more {
      if i < |xs| {
        assert i in at && at == at[..p] + at[p..];
      } else {
        assert more[p] == i;
      }
    }
    forall j, k | 0 <= j < k < |more|
      ensures more[j] != more[k] && le(all[more[j]], all[more[k]]) && (le(all[more[k]], all[more[j]]) ==> more[j] < more[k])
    {
      assert j != p ==> all[more[j]] == xs[at[if j < p then j else j - 1]];
      assert k != p ==> all[more[k]] == xs[at[if k < p then k else k - 1]];
    }
  }

  ghost predicate ReadsAs<T>(r: seq<T>, at: seq<nat>, xs: seq<T>) {
    |r| == |at| && forall k | 0 <= k < |at| :: at[k] < |xs| && r[k] == xs[at[k]]
  }

  lemma SpliceReads<T>(r: seq<T>, at: seq<nat>, xs: seq<T>, x: T, p: nat)
    requires ReadsAs(r, at, xs) && p <= |at|
    ensures ReadsAs(r[..p] + [x] + r[p..], at[..p] + [|xs|] + at[p..], xs + [x])
  {}

  /** Sorting is stable: it arranges the elements by their order and, where that does not decide, as they stood. */
  lemma {:induction false} SortIsStable<T(!new)>(xs: seq<T>, le: (T, T) -> bool) returns (at: seq<nat>)
    requires Orders(le)
    ensures |at| == |xs| && Arranges(at, xs, le) && ReadsAs(SortBy(xs, le), at, xs)
  {
    hide Arranges, ReadsAs, Sorted, Slot;
    if xs == [] {
      at := [];
      NothingToArrange(xs, le);
    } else {
      var init, x := xs[..|xs| - 1], xs[|xs| - 1];
      var before := SortIsStable(init, le);
      var p := Slot(SortBy(init, le), x, le);
      assert xs == init + [x];
      SlotArranges(before, init, SortBy(init, le), x, p, le);
      SpliceReads(SortBy(init, le), before, init, x, p);
      at := before[..p] + [|init|] + before[p..];
    }
  }

  lemma NothingToArrange<T(!new)>(xs: seq<T>, le: (T, T) -> bool)
    requires xs == []
    ensures Arranges([], xs, le) && ReadsAs(xs, [], xs)
  {}

  lemma SlotArranges<T(!new)>(at: seq<nat>, xs: seq<T>, sorted: seq<T>, x: T, p: nat, le: (T, T) -> bool)
    requires Orders(le) && Arranges(at, xs, le) && ReadsAs(sorted, at, xs) && p <= |at|
    requires forall i | 0 <= i < p :: le(sorted[i], x)
    requires forall i | p <= i < |sorted| :: !le(sorted[i], x)
    ensures Arranges(at[..p] + [|xs|] + at[p..], xs + [x], le)
  {
    ArrangeOne(at, xs, x, p, le) by {
      forall i | 0 <= i < p ensures le(xs[at[i]], x) { assert sorted[i] == xs[at[i]]; }
      forall i | p <= i < |at| ensures le(x, xs[at[i]]) && !le(xs[at[i]], x) { assert sorted[i] == xs[at[i]]; }
    }
  }

  predicate TurnLe(a: Fact, b: Fact) { a.addedTurn <= b.addedTurn }

  function SortByTurn(facts: seq<Fact>): (r: seq<Fact>)
    ensures Sorted(r, TurnLe) && multiset(r) == multiset(facts) && |r| == |facts|
    ensures forall i, j | 0 <= i < j < |r| :: r[i].addedTurn <= r[j].addedTurn
  {
    SortBy(facts, TurnLe)
  }
}
