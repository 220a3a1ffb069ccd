/**
  Merging one conversation's facts into another's, in compactor/portability.py. `key` stands for
  the casefolded, whitespace-collapsed text; a row whose key is empty is not merged.
  */
module FactMerge {
  import opened FactRows

  /** What a new row's `last_used` is raised to, if anything. */
  datatype Floor = NoFloor | AtLeast(lastUsed: int)

  function Larger(a: int, b: int): int { if a > b then a else b }

  function Raised(f: Fact, floor: Floor): Fact {
    if floor.NoFloor? then f else f.(lastUsed := Larger(f.lastUsed, floor.lastUsed))
  }

  /** The first row with the key, or the length of the list. */
  function Find(rows: seq<Fact>, k: string, key: string -> string): (i: nat)
    ensures i <= |rows|
    ensures forall j | 0 <= j < i :: key(rows[j].text) != k
    ensures i < |rows| ==> key(rows[i].text) == k
  {
    if rows == [] then 0
    else if key(rows[0].text) == k then 0
    else 1 + Find(rows[1..], k, key)
  }

  function MergeOne(rows: seq<Fact>, f: Fact, key: string -> string, floor: Floor): seq<Fact> {
    var i := Find(rows, key(f.text), key);
    if key(f.text) == "" then rows
    else if i < |rows| then rows[i := FoldIn(rows[i], f)]
    else rows + [Raised(f, floor)]
  }

  function Merged(dst: seq<Fact>, src: seq<Fact>, key: string -> string, floor: Floor): seq<Fact> {
    if src == [] then dst
    else MergeOne(Merged(dst, src[..|src| - 1], key, floor), src[|src| - 1], key, floor)
  }

  datatype Stats = Stats(added: nat, updated: nat, same: nat)

  ghost predicate Indexes(index: map<string, nat>, rows: seq<Fact>, key: string -> string) {
    forall k | k != "" :: if Find(rows, k, key) < |rows| then k in index && index[k] == Find(rows, k, key) else k !in index
  }

  lemma {:induction false} FindAppended(rows: seq<Fact>, f: Fact, k: string, key: string -> string)
    ensures Find(rows + [f], k, key) ==
            if Find(rows, k, key) < |rows| then Find(rows, k, key) else if key(f.text) == k then |rows| else |rows| + 1
  {
    if rows != [] {
      FindAppended(rows[1..], f, k, key);
      assert (rows + [f])[1..] == rows[1..] + [f];
    }
  }

  lemma {:induction false} FindSameKeys(a: seq<Fact>, b: seq<Fact>, k: string, key: string -> string)
    requires |a| == |b| && forall i | 0 <= i < |a| :: a[i].text == b[i].text
    ensures Find(a, k, key) == Find(b, k, key)
  {
    if a != [] { FindSameKeys(a[1..], b[1..], k, key); }
  }

  function Keyed(src: seq<Fact>, key: string -> string): nat {
    if src == [] then 0 else Keyed(src[..|src| - 1], key) + if key(src[|src| - 1].text) == "" then 0 else 1
  }

  lemma IndexAppended(index: map<string, nat>, rows: seq<Fact>, f: Fact, key: string -> string)
    requires Indexes(index, rows, key)
    ensures key(f.text) == "" || key(f.text) in index ==> Indexes(index, rows + [f], key)
    ensures key(f.text) != "" && key(f.text) !in index ==> Indexes(index[key(f.text) := |rows|], rows + [f], key)
  {
    forall k ensures Find(rows + [f], k, key) ==
        if Find(rows, k, key) < |rows| then Find(rows, k, key) else if key(f.text) == k then |rows| else |rows| + 1
    {
      FindAppended(rows, f, k, key);
    }
  }

  lemma IndexRewritten(index: map<string, nat>, was: seq<Fact>, now: seq<Fact>, key: string -> string)
    requires Indexes(index, was, key) && |was| == |now| && forall i | 0 <= i < |was| :: was[i].text == now[i].text
    ensures Indexes(index, now, key)
  {
    forall k ensures Find(was, k, key) == Find(now, k, key) { FindSameKeys(was, now, k, key); }
  }

  method MergeRow(rows: seq<Fact>, index: map<string, nat>, f: Fact, key: string -> string, floor: Floor, was: Stats)
    returns (merged: seq<Fact>, next: map<string, nat>, stats: Stats)
    requires Indexes(index, rows, key)
    ensures merged == MergeOne(rows, f, key, floor) && Indexes(next, merged, key)
    ensures stats.added - was.added == |merged| - |rows|
    ensures stats.added + stats.updated + stats.same
         == was.added + was.updated + was.same + if key(f.text) == "" then 0 else 1
    ensures stats.added >= was.added && stats.updated >= was.updated
    ensures stats.added == was.added && stats.updated == was.updated <==> merged == rows
  {
    var k := key(f.text);
    if k == "" { return rows, index, was; }
    if k !in index {
      var row := Raised(f, floor);
      IndexAppended(index, rows, row, key);
      next := index[k := |rows|];
      merged, stats := rows + [row], was.(added := was.added + 1);
    } else {
      var folded := FoldIn(rows[index[k]], f);
      if folded == rows[index[k]] { return rows, index, was.(same := was.same + 1); }
      merged, next, stats := rows[index[k] := folded], index, was.(updated := was.updated + 1);
      assert merged[index[k]] != rows[index[k]];
      IndexRewritten(index, rows, merged, key);
    }
  }

  method MergeFactLists(dst: seq<Fact>, src: seq<Fact>, key: string -> string, floor: Floor)
    returns (merged: seq<Fact>, stats: Stats)
    ensures merged == Merged(dst, src, key, floor)
    ensures stats.added == |merged| - |dst| && stats.added + stats.updated + stats.same == Keyed(src, key)
    ensures stats.added == 0 && stats.updated == 0 ==> merged == dst
  {
    hide MergeOne, Indexes;
    merged := dst;
    var index := IndexKeys(dst, key);
    stats := Stats(0, 0, 0);
    for n := 0 to |src|
      invariant merged == Merged(dst, src[..n], key, floor) && Indexes(index, merged, key)
      invariant stats.added == |merged| - |dst| && stats.added + stats.updated + stats.same == Keyed(src[..n], key)
      invariant stats.added >= 0 && (stats.added == 0 && stats.updated == 0 ==> merged == dst)
    {
      assert src[..n + 1][..n] == src[..n];
      DestinationIsKept(dst, src[..n], key, floor);
      merged, index, stats := MergeRow(merged, index, src[n], key, floor, stats);
    }
    assert src[..|src|] == src;
  }

  method IndexKeys(rows: seq<Fact>, key: string -> string) returns (index: map<string, nat>)
    ensures Indexes(index, rows, key)
  {
    index := map[];
    for i := 0 to |rows|
      invariant Indexes(index, rows[..i], key)
    {
      hide Indexes;
      var k := key(rows[i].text);
      assert rows[..i + 1] == rows[..i] + [rows[i]];
      IndexAppended(index, rows[..i], rows[i], key);
      if k != "" && k !in index { index := index[k := i]; }
    }
    assert rows[..|rows|] == rows;
  }

  // ---------------------------------------------------------------------------------
  // The destination is a preserved prefix
  // ---------------------------------------------------------------------------------

  /** Same text and turn, and at least the protection. */
  predicate Carries(now: Fact, was: Fact) {
    now.text == was.text && now.addedTurn == was.addedTurn && (was.pin ==> now.pin) && now.lastUsed >= was.lastUsed
  }

  lemma {:induction false} DestinationIsKept(dst: seq<Fact>, src: seq<Fact>, key: string -> string, floor: Floor)
    ensures var m := Merged(dst, src, key, floor);
            |m| >= |dst| && forall i | 0 <= i < |dst| :: Carries(m[i], dst[i])
  {
    if src != [] { DestinationIsKept(dst, src[..|src| - 1], key, floor); }
  }

  function Keys(rows: seq<Fact>, key: string -> string): set<string> {
    set f | f in rows && key(f.text) != "" :: key(f.text)
  }

  lemma KeysConcat(a: seq<Fact>, b: seq<Fact>, key: string -> string)
    ensures Keys(a + b, key) == Keys(a, key) + Keys(b, key)
  {
    forall k ensures k in Keys(a + b, key) <==> k in Keys(a, key) + Keys(b, key) {
      assert forall f :: f in a + b <==> f in a || f in b;
    }
  }

  lemma KeysByText(a: seq<Fact>, b: seq<Fact>, key: string -> string)
    requires |a| == |b| && forall i | 0 <= i < |a| :: a[i].text == b[i].text
    ensures Keys(a, key) == Keys(b, key)
  {
    forall k ensures k in Keys(a, key) <==> k in Keys(b, key) {
      if k in Keys(a, key) {
        var i :| 0 <= i < |a| && key(a[i].text) == k;
        assert b[i] in b;
      }
      if k in Keys(b, key) {
        var i :| 0 <= i < |b| && key(b[i].text) == k;
        assert a[i] in a;
      }
    }
  }

  lemma KeysOfOne(m: seq<Fact>, f: Fact, key: string -> string, floor: Floor)
    ensures Keys(MergeOne(m, f, key, floor), key) == Keys(m, key) + Keys([f], key)
  {
    var i := Find(m, key(f.text), key);
    if key(f.text) == "" {
      assert Keys([f], key) == {};
    } else if i < |m| {
      KeysByText(m[i := FoldIn(m[i], f)], m, key);
      assert m[i] in m;
      assert Keys([f], key) == {key(f.text)};
    } else {
      KeysConcat(m, [Raised(f, floor)], key);
      KeysByText([Raised(f, floor)], [f], key);
    }
  }

  /** The keys are the union. */
  lemma {:induction false} KeysAreTheUnion(dst: seq<Fact>, src: seq<Fact>, key: string -> string, floor: Floor)
    ensures Keys(Merged(dst, src, key, floor), key) == Keys(dst, key) + Keys(src, key)
  {
    hide Keys, MergeOne;
    if src == [] {
      assert Keys([], key) == {} by { KeysOfNothing(key); }
    } else {
      var init, f := src[..|src| - 1], src[|src| - 1];
      KeysAreTheUnion(dst, init, key, floor);
      assert src == init + [f];
      KeysConcat(init, [f], key);
      KeysOfOne(Merged(dst, init, key, floor), f, key, floor);
    }
  }

  lemma KeysOfNothing(key: string -> string)
    ensures Keys([], key) == {}
  {}

  // ---------------------------------------------------------------------------------
  // Merging again, and merging in another order
  // ---------------------------------------------------------------------------------

  /** The row already carries all that the merge would give it. */
  predicate Absorbed(rows: seq<Fact>, f: Fact, key: string -> string) {
    var i := Find(rows, key(f.text), key);
    key(f.text) == "" || (i < |rows| && FoldIn(rows[i], f) == rows[i])
  }

  lemma AbsorbedByMerging(rows: seq<Fact>, f: Fact, key: string -> string, floor: Floor)
    ensures Absorbed(MergeOne(rows, f, key, floor), f, key)
  {
    var k := key(f.text);
    var i := Find(rows, k, key);
    if k != "" {
      if i < |rows| {
        FindSameKeys(rows[i := FoldIn(rows[i], f)], rows, k, key);
      } else {
        FindAppended(rows, Raised(f, floor), k, key);
      }
    }
  }

  lemma AbsorbedStays(rows: seq<Fact>, f: Fact, g: Fact, key: string -> string, floor: Floor)
    requires Absorbed(rows, f, key)
    ensures Absorbed(MergeOne(rows, g, key, floor), f, key)
  {
    var i := Find(rows, key(g.text), key);
    if key(g.text) != "" {
      if i < |rows| {
        FindSameKeys(rows[i := FoldIn(rows[i], g)], rows, key(f.text), key);
      } else {
        FindAppended(rows, Raised(g, floor), key(f.text), key);
      }
    }
  }

  lemma {:induction false} MergingAbsorbs(dst: seq<Fact>, src: seq<Fact>, key: string -> string, floor: Floor)
    ensures forall f | f in src :: Absorbed(Merged(dst, src, key, floor), f, key)
  {
    if src != [] {
      var init, last := src[..|src| - 1], src[|src| - 1];
      var m := Merged(dst, init, key, floor);
      hide Absorbed, MergeOne;
      MergingAbsorbs(dst, init, key, floor);
      AbsorbedByMerging(m, last, key, floor);
      assert src == init + [last];
      forall f | f in init ensures Absorbed(MergeOne(m, last, key, floor), f, key) {
        AbsorbedStays(m, f, last, key, floor);
      }
    }
  }

  lemma {:induction false} AbsorbedMergesToNothing(rows: seq<Fact>, src: seq<Fact>, key: string -> string, floor: Floor)
    requires forall f | f in src :: Absorbed(rows, f, key)
    ensures Merged(rows, src, key, floor) == rows
  {
    if src != [] {
      assert src[|src| - 1] in src;
      AbsorbedMergesToNothing(rows, src[..|src| - 1], key, floor);
    }
  }

  /** Merging a source again changes nothing, whatever the floors of the two merges. */
  lemma MergingAgainChangesNothing(dst: seq<Fact>, src: seq<Fact>, key: string -> string, floor: Floor, again: Floor)
    ensures Merged(Merged(dst, src, key, floor), src, key, again) == Merged(dst, src, key, floor)
  {
    MergingAbsorbs(dst, src, key, floor);
    AbsorbedMergesToNothing(Merged(dst, src, key, floor), src, key, again);
  }

  /** The protection of a key: none if no row has it, else pinned at all and used last. */
  datatype Protection = Absent | Protected(pin: bool, lastUsed: int)

  function Join(a: Protection, b: Protection): Protection {
    if a.Absent? then b else if b.Absent? then a else Protected(a.pin || b.pin, Larger(a.lastUsed, b.lastUsed))
  }

  function Of(f: Fact): Protection { Protected(f.pin, f.lastUsed) }

  function ProtectionOf(rows: seq<Fact>, k: string, key: string -> string): Protection {
    if rows == [] then Absent
    else Join(if key(rows[0].text) == k then Of(rows[0]) else Absent, ProtectionOf(rows[1..], k, key))
  }

  ghost predicate NoDuplicates(rows: seq<Fact>, key: string -> string) {
    forall i, j | 0 <= i < j < |rows| && key(rows[i].text) == key(rows[j].text) :: key(rows[i].text) == ""
  }

  /** Without duplicates, the protection of a key is that of its row. */
  lemma {:induction false} ProtectionIsTheRows(rows: seq<Fact>, i: nat, key: string -> string)
    requires NoDuplicates(rows, key) && i < |rows| && key(rows[i].text) != ""
    ensures ProtectionOf(rows, key(rows[i].text), key) == Of(rows[i])
  {
    var k := key(rows[i].text);
    assert forall a | 0 <= a < |rows[1..]| :: rows[1..][a] == rows[a + 1];
    if i == 0 {
      NoProtection(rows[1..], k, key);
    } else {
      ProtectionIsTheRows(rows[1..], i - 1, key);
    }
  }

  lemma {:induction false} NoProtection(rows: seq<Fact>, k: string, key: string -> string)
    requires forall j | 0 <= j < |rows| :: key(rows[j].text) != k
    ensures ProtectionOf(rows, k, key) == Absent
  {
    if rows != [] { NoProtection(rows[1..], k, key); }
  }

  lemma {:induction false} ProtectionConcat(a: seq<Fact>, b: seq<Fact>, k: string, key: string -> string)
    ensures ProtectionOf(a + b, k, key) == Join(ProtectionOf(a, k, key), ProtectionOf(b, k, key))
  {
    if a == [] {
      assert a + b == b;
    } else {
      assert (a + b)[1..] == a[1..] + b;
      ProtectionConcat(a[1..], b, k, key);
    }
  }

  lemma {:induction false} ProtectionOfFold(rows: seq<Fact>, i: nat, f: Fact, k: string, key: string -> string)
    requires i < |rows| && key(rows[i].text) == key(f.text)
    ensures ProtectionOf(rows[i := FoldIn(rows[i], f)], k, key)
         == Join(ProtectionOf(rows, k, key), if key(f.text) == k then Of(f) else Absent)
  {
    var now := rows[i := FoldIn(rows[i], f)];
    if i == 0 {
      assert now[1..] == rows[1..];
    } else {
      assert now[1..] == rows[1..][i - 1 := FoldIn(rows[1..][i - 1], f)];
      ProtectionOfFold(rows[1..], i - 1, f, k, key);
    }
  }

  /** A key that only the source brings is raised to the floor, any other is joined as it is. */
  function Meet(dst: Protection, src: Protection, floor: Floor): Protection {
    if dst.Protected? then Join(dst, src)
    else if src.Absent? || floor.NoFloor? then src
    else Protected(src.pin, Larger(src.lastUsed, floor.lastUsed))
  }

  lemma {:induction false} AbsentIffNotFound(rows: seq<Fact>, k: string, key: string -> string)
    ensures ProtectionOf(rows, k, key) == Absent <==> Find(rows, k, key) == |rows|
    ensures k in Keys(rows, key) <==> k != "" && ProtectionOf(rows, k, key).Protected?
  {
    if rows != [] {
      AbsentIffNotFound(rows[1..], k, key);
      assert rows == [rows[0]] + rows[1..];
      KeysConcat([rows[0]], rows[1..], key);
    }
  }

  lemma MeetOne(m: seq<Fact>, f: Fact, k: string, key: string -> string, floor: Floor)
    requires k != ""
    ensures ProtectionOf(MergeOne(m, f, key, floor), k, key)
         == Meet(ProtectionOf(m, k, key), ProtectionOf([f], k, key), floor)
  {
    var i := Find(m, key(f.text), key);
    AbsentIffNotFound(m, k, key);
    if key(f.text) != "" {
      if i < |m| { ProtectionOfFold(m, i, f, k, key); } else { ProtectionConcat(m, [Raised(f, floor)], k, key); }
    }
  }

  lemma MeetJoins(d: Protection, p: Protection, q: Protection, floor: Floor)
    ensures Meet(Meet(d, p, floor), q, floor) == Meet(d, Join(p, q), floor)
  {}

  /** What a merge makes of the protection of each key. */
  lemma {:induction false} MergeMeets(dst: seq<Fact>, src: seq<Fact>, k: string, key: string -> string, floor: Floor)
    requires k != ""
    ensures ProtectionOf(Merged(dst, src, key, floor), k, key)
         == Meet(ProtectionOf(dst, k, key), ProtectionOf(src, k, key), floor)
  {
    if src == [] {
      assert ProtectionOf([], k, key) == Absent;
    } else {
      var init, f := src[..|src| - 1], src[|src| - 1];
      MergeMeets(dst, init, k, key, floor);
      assert src == init + [f];
      ProtectionConcat(init, [f], k, key);
      MeetOne(Merged(dst, init, key, floor), f, k, key, floor);
      MeetJoins(ProtectionOf(dst, k, key), ProtectionOf(init, k, key), ProtectionOf([f], k, key), floor);
    }
    hide ProtectionOf, MergeOne, Meet;
  }

  /** Without a floor, the merge joins the protections key by key. */
  lemma {:induction false} MergeIsJoin(dst: seq<Fact>, src: seq<Fact>, k: string, key: string -> string)
    requires k != ""
    ensures ProtectionOf(Merged(dst, src, key, NoFloor), k, key)
         == Join(ProtectionOf(dst, k, key), ProtectionOf(src, k, key))
  {
    MergeMeets(dst, src, k, key, NoFloor);
  }

  lemma {:induction false} MergeKeepsNoDuplicates(dst: seq<Fact>, src: seq<Fact>, key: string -> string, floor: Floor)
    requires NoDuplicates(dst, key)
    ensures NoDuplicates(Merged(dst, src, key, floor), key)
  {
    if src != [] {
      MergeKeepsNoDuplicates(dst, src[..|src| - 1], key, floor);
    }
  }

  /** Two sources can be merged in either order: same keys, and each key's row protected alike. */
  lemma {:induction false} OrderDoesNotMatter(dst: seq<Fact>, a: seq<Fact>, b: seq<Fact>, key: string -> string, i: nat)
    requires NoDuplicates(dst, key)
    requires i < |Merged(Merged(dst, a, key, NoFloor), b, key, NoFloor)|
    requires key(Merged(Merged(dst, a, key, NoFloor), b, key, NoFloor)[i].text) != ""
    ensures var ab, ba := Merged(Merged(dst, a, key, NoFloor), b, key, NoFloor),
                          Merged(Merged(dst, b, key, NoFloor), a, key, NoFloor);
            exists j | 0 <= j < |ba| :: key(ba[j].text) == key(ab[i].text) && Of(ba[j]) == Of(ab[i])
  {
    var ab, ba := Merged(Merged(dst, a, key, NoFloor), b, key, NoFloor),
                  Merged(Merged(dst, b, key, NoFloor), a, key, NoFloor);
    var k := key(ab[i].text);
    MergeKeepsNoDuplicates(dst, a, key, NoFloor);
    MergeKeepsNoDuplicates(dst, b, key, NoFloor);
    MergeKeepsNoDuplicates(Merged(dst, a, key, NoFloor), b, key, NoFloor);
    MergeKeepsNoDuplicates(Merged(dst, b, key, NoFloor), a, key, NoFloor);
    MergeIsJoin(dst, a, k, key);
    MergeIsJoin(Merged(dst, a, key, NoFloor), b, k, key);
    MergeIsJoin(dst, b, k, key);
    MergeIsJoin(Merged(dst, b, key, NoFloor), a, k, key);
    ProtectionIsTheRows(ab, i, key);
    var j := Find(ba, k, key);
    if j == |ba| {
      NoProtection(ba, k, key);
    } else {
      ProtectionIsTheRows(ba, j, key);
    }
  }

  // ---------------------------------------------------------------------------------
  // The recency floor
  // ---------------------------------------------------------------------------------

  function NewestUse(rows: seq<Fact>): (m: int)
    ensures forall f | f in rows :: f.lastUsed <= m
    ensures rows == [] ==> m == 0
    ensures rows != [] ==> exists f :: f in rows && f.lastUsed == m
  {
    if rows == [] then 0
    else if |rows| == 1 then rows[0].lastUsed
    else Larger(NewestUse(rows[..|rows| - 1]), rows[|rows| - 1].lastUsed)
  }

  /** The floor of a merge into these rows, when it refreshes recency; `NoFloor` when it does not. */
  function FloorFor(rows: seq<Fact>): Floor { AtLeast(NewestUse(rows)) }

  /** With a floor, no merged-in row looks older than it. */
  lemma {:induction false} NewRowsAreRaised(dst: seq<Fact>, src: seq<Fact>, key: string -> string, floor: Floor)
    requires floor.AtLeast?
    ensures var m := Merged(dst, src, key, floor);
            |m| >= |dst| && forall i | |dst| <= i < |m| :: m[i].lastUsed >= floor.lastUsed
  {
    if src != [] {
      NewRowsAreRaised(dst, src[..|src| - 1], key, floor);
      DestinationIsKept(dst, src[..|src| - 1], key, floor);
    }
  }

  function MergedRaised(dst: seq<Fact>, src: seq<Fact>, key: string -> string): seq<Fact> {
    Merged(dst, src, key, FloorFor(dst))
  }

  /** The floor never falls from one merge to the next. */
  lemma FloorGrows(dst: seq<Fact>, src: seq<Fact>, key: string -> string)
    ensures NewestUse(dst) <= NewestUse(MergedRaised(dst, src, key))
  {
    var m := MergedRaised(dst, src, key);
    DestinationIsKept(dst, src, key, FloorFor(dst));
    NewRowsAreRaised(dst, src, key, FloorFor(dst));
    hide MergedRaised, NewestUse;
    if dst != [] {
      var f :| f in dst && f.lastUsed == NewestUse(dst);
      var i :| 0 <= i < |dst| && dst[i] == f;
      assert m[i] in m;
    } else if m != [] {
      assert m[0] in m;
    }
  }

  /** The newest use among `n` and the rows that a merge does not pass over. */
  function NewestKeyed(n: int, rows: seq<Fact>, key: string -> string): (m: int)
    ensures m >= n && forall f | f in rows && key(f.text) != "" :: f.lastUsed <= m
    ensures m == n || exists f | f in rows :: key(f.text) != "" && f.lastUsed == m
  {
    if rows == [] then n else
      var f, before := rows[|rows| - 1], NewestKeyed(n, rows[..|rows| - 1], key);
      assert rows == rows[..|rows| - 1] + [f];
      if key(f.text) == "" then before else Larger(before, f.lastUsed)
  }

  lemma NewestOfSnoc(rows: seq<Fact>, f: Fact)
    ensures NewestUse(rows + [f]) == if rows == [] then f.lastUsed else Larger(NewestUse(rows), f.lastUsed)
  {
    assert (rows + [f])[..|rows|] == rows;
  }

  lemma {:induction false} NewestOfFold(rows: seq<Fact>, i: nat, f: Fact)
    requires i < |rows|
    ensures NewestUse(rows[i := FoldIn(rows[i], f)]) == Larger(NewestUse(rows), f.lastUsed)
  {
    hide NewestUse;
    var init, last := rows[..|rows| - 1], rows[|rows| - 1];
    assert rows == init + [last];
    NewestOfSnoc(init, last);
    if i < |init| {
      assert rows[i := FoldIn(rows[i], f)] == init[i := FoldIn(init[i], f)] + [last];
      NewestOfSnoc(init[i := FoldIn(init[i], f)], last);
      NewestOfFold(init, i, f);
    } else {
      assert rows[i := FoldIn(rows[i], f)] == init + [FoldIn(last, f)];
      NewestOfSnoc(init, FoldIn(last, f));
    }
  }

  /** The floor that a merge leaves, from the rows that went into it. */
  lemma {:induction false} FloorAfter(dst: seq<Fact>, src: seq<Fact>, key: string -> string)
    ensures NewestUse(MergedRaised(dst, src, key)) == NewestKeyed(NewestUse(dst), src, key)
  {
    hide NewestUse;
    if src != [] {
      var init, f, floor := src[..|src| - 1], src[|src| - 1], FloorFor(dst);
      var m := Merged(dst, init, key, floor);
      FloorAfter(dst, init, key);
      DestinationIsKept(dst, init, key, floor);
      var i := Find(m, key(f.text), key);
      if key(f.text) != "" {
        if i < |m| { NewestOfFold(m, i, f); } else { NewestOfSnoc(m, Raised(f, floor)); }
      }
    }
  }

  function LastUse(rows: seq<Fact>, k: string, key: string -> string): int {
    match ProtectionOf(rows, k, key) case Absent => 0 case Protected(_, lastUsed) => lastUsed
  }

  /** If only `a` brings the key, then its use there or the newest in `dst` is no older than any of `b`. */
  predicate KeyIsFresh(dst: seq<Fact>, a: seq<Fact>, b: seq<Fact>, k: string, key: string -> string) {
    k in Keys(a, key) && k !in Keys(b, key) && k !in Keys(dst, key) ==>
      forall f | f in b && key(f.text) != "" :: f.lastUsed <= Larger(LastUse(a, k, key), NewestUse(dst))
  }

  predicate FreshEnough(dst: seq<Fact>, a: seq<Fact>, b: seq<Fact>, key: string -> string) {
    forall k | k in Keys(a, key) :: KeyIsFresh(dst, a, b, k, key)
  }

  /** What one key becomes in the two orders, if floors `n`, `na` and `nb` are in force. */
  lemma TwoOrders(d: Protection, a: Protection, b: Protection, n: int, na: int, nb: int)
    requires n <= na && n <= nb
    ensures Meet(Meet(d, a, AtLeast(n)), b, AtLeast(na)) == Meet(Meet(d, b, AtLeast(n)), a, AtLeast(nb)) <==>
            && (d.Absent? && a.Protected? && b.Absent? ==> Larger(a.lastUsed, n) >= nb)
            && (d.Absent? && b.Protected? && a.Absent? ==> Larger(b.lastUsed, n) >= na)
  {}

  ghost predicate SameInBothOrders(dst: seq<Fact>, a: seq<Fact>, b: seq<Fact>, k: string, key: string -> string) {
    ProtectionOf(MergedRaised(MergedRaised(dst, a, key), b, key), k, key)
    == ProtectionOf(MergedRaised(MergedRaised(dst, b, key), a, key), k, key)
  }

  /** With the floor, two sources can be merged in either order exactly when every new key that only
      one of them brings is fresh enough for the floor that the other one leaves. */
  lemma FloorsCommuteExactly(dst: seq<Fact>, a: seq<Fact>, b: seq<Fact>, key: string -> string)
    ensures (forall k | k != "" :: SameInBothOrders(dst, a, b, k, key)) <==>
            FreshEnough(dst, a, b, key) && FreshEnough(dst, b, a, key)
  {
    FreshForAnyKey(dst, a, b, key);
    FreshForAnyKey(dst, b, a, key);
    forall k: string | k != ""
      ensures SameInBothOrders(dst, a, b, k, key) <==> KeyIsFresh(dst, a, b, k, key) && KeyIsFresh(dst, b, a, k, key)
    {
      KeyInTwoOrders(dst, a, b, k, key);
    }
    hide SameInBothOrders, KeyIsFresh, FreshEnough;
  }

  lemma FreshForAnyKey(dst: seq<Fact>, a: seq<Fact>, b: seq<Fact>, key: string -> string)
    ensures FreshEnough(dst, a, b, key) <==> forall k | k != "" :: KeyIsFresh(dst, a, b, k, key)
  {
    assert forall k | k !in Keys(a, key) :: KeyIsFresh(dst, a, b, k, key);
    assert forall k | k in Keys(a, key) :: k != "";
    hide KeyIsFresh, Keys;
  }

  lemma KeyInTwoOrders(dst: seq<Fact>, a: seq<Fact>, b: seq<Fact>, k: string, key: string -> string)
    requires k != ""
    ensures SameInBothOrders(dst, a, b, k, key) <==> KeyIsFresh(dst, a, b, k, key) && KeyIsFresh(dst, b, a, k, key)
  {
    var da, db := MergedRaised(dst, a, key), MergedRaised(dst, b, key);
    MergeMeets(dst, a, k, key, FloorFor(dst));
    MergeMeets(dst, b, k, key, FloorFor(dst));
    MergeMeets(da, b, k, key, FloorFor(da));
    MergeMeets(db, a, k, key, FloorFor(db));
    AbsentIffNotFound(dst, k, key);
    AbsentIffNotFound(a, k, key);
    AbsentIffNotFound(b, k, key);
    FloorGrows(dst, a, key);
    FloorGrows(dst, b, key);
    FloorAfter(dst, a, key);
    FloorAfter(dst, b, key);
    TwoOrders(ProtectionOf(dst, k, key), ProtectionOf(a, k, key), ProtectionOf(b, k, key),
              NewestUse(dst), NewestUse(da), NewestUse(db));
    hide ProtectionOf, Merged, NewestUse, Keys, Find, Meet;
  }

  lemma RaisesSingle(rows: seq<Fact>, f: Fact, key: string -> string)
    requires |rows| <= 1 && key(f.text) != "" && (rows != [] ==> key(rows[0].text) != key(f.text))
    ensures MergedRaised(rows, [f], key)
         == rows + [f.(lastUsed := Larger(f.lastUsed, if rows == [] then 0 else rows[0].lastUsed))]
  {
    assert [f][..0] == [];
    assert Merged(rows, [], key, FloorFor(rows)) == rows;
    assert Find(rows, key(f.text), key) == |rows|;
  }

  lemma RaisedSecond(x: Fact, y: Fact, key: string -> string)
    requires key(x.text) != "" && key(y.text) != "" && key(x.text) != key(y.text) && 0 <= x.lastUsed
    ensures MergedRaised(MergedRaised([], [x], key), [y], key) == [x, y.(lastUsed := Larger(y.lastUsed, x.lastUsed))]
  {
    RaisesSingle([], x, key);
    RaisesSingle([x], y, key);
    hide MergedRaised;
    assert x.(lastUsed := x.lastUsed) == x;
    assert MergedRaised([], [x], key) == [x];
  }

  /** With the floor, the order of two merges does matter: an older row is raised only if it comes second. */
  lemma FloorsDoNotCommute(x: Fact, y: Fact, key: string -> string)
    requires key(x.text) != "" && key(y.text) != "" && key(x.text) != key(y.text)
    requires 0 <= x.lastUsed < y.lastUsed
    ensures ProtectionOf(MergedRaised(MergedRaised([], [x], key), [y], key), key(x.text), key) == Of(x)
    ensures ProtectionOf(MergedRaised(MergedRaised([], [y], key), [x], key), key(x.text), key)
         == Of(x.(lastUsed := y.lastUsed))
  {
    RaisedSecond(x, y, key);
    RaisedSecond(y, x, key);
    hide MergedRaised, ProtectionOf;
    ProtectionIsTheRows([x, y.(lastUsed := Larger(y.lastUsed, x.lastUsed))], 0, key);
    ProtectionIsTheRows([y, x.(lastUsed := Larger(x.lastUsed, y.lastUsed))], 1, key);
  }
}
