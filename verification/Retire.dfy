/**
  /retire in compactor/commands.py: a conversation's fact memory moves into another conversation,
  file by file, and only then is the source cleared. `rejects` stands for the structural filter.
  */
module Retire {
  import opened FactRows
  import Cold = ColdStorage
  import Rows = Duplicates

  datatype Stores = Stores(srcActive: seq<Fact>, srcArchive: seq<Fact>, dstActive: seq<Fact>, dstArchive: seq<Fact>)

  datatype Memory = Memory(active: seq<Fact>, archive: seq<Fact>)

  function Items(active: seq<Fact>, archive: seq<Fact>): (r: seq<Rows.Item>)
    ensures |r| == |active| + |archive|
    ensures forall i | 0 <= i < |active| :: r[i] == Rows.Item(true, active[i])
    ensures forall i | 0 <= i < |archive| :: r[|active| + i] == Rows.Item(false, archive[i])
  {
    seq(|active| + |archive|, i requires 0 <= i < |active| + |archive| =>
      if i < |active| then Rows.Item(true, active[i]) else Rows.Item(false, archive[i - |active|]))
  }

  // ---------------------------------------------------------------------------------
  // The rows that are considered for the destination: one for each text
  // ---------------------------------------------------------------------------------

  ghost predicate OneEach(ks: seq<Rows.Item>) { forall i, j | 0 <= i < j < |ks| :: ks[i].row.text != ks[j].row.text }

  function At(items: seq<Rows.Item>, positions: seq<nat>): (r: seq<Rows.Item>)
    requires forall m | 0 <= m < |positions| :: positions[m] < |items|
    ensures |r| == |positions| && forall m | 0 <= m < |r| :: r[m] == items[positions[m]]
  {
    seq(|positions|, m requires 0 <= m < |positions| => items[positions[m]])
  }

  function Considered(s: Stores, rejects: string -> bool): seq<Rows.Item> {
    var items := Items(s.srcActive, s.srcArchive);
    At(items, Rows.Keepers(items, rejects, |items|))
  }

  lemma {:induction false} OneKept(items: seq<Rows.Item>, rejects: string -> bool)
    ensures OneEach(At(items, Rows.Keepers(items, rejects, |items|)))
  {
    var kept := Rows.Keepers(items, rejects, |items|);
    var ks := At(items, kept);
    forall i, j | 0 <= i < j < |ks| ensures ks[i].row.text != ks[j].row.text {
      if ks[i].row.text == ks[j].row.text {
        assert Rows.SameText(items, kept[i], kept[j]) && Rows.SameText(items, kept[i], kept[i]);
        var k := Rows.OneKeeperEach(items, rejects, kept[i]);
      }
    }
  }

  lemma ConsideredOnce(s: Stores, rejects: string -> bool)
    ensures OneEach(Considered(s, rejects))
    ensures forall k | k in Considered(s, rejects) :: !rejects(k.row.text)
    ensures forall f | (f in s.srcActive || f in s.srcArchive) && !rejects(f.text) ::
              exists k | k in Considered(s, rejects) :: k.row.text == f.text
  {
    var items := Items(s.srcActive, s.srcArchive);
    var kept, ks := Rows.Keepers(items, rejects, |items|), Considered(s, rejects);
    OneKept(items, rejects);
    forall f | (f in s.srcActive || f in s.srcArchive) && !rejects(f.text)
      ensures exists k | k in ks :: k.row.text == f.text
    {
      var i :| 0 <= i < |items| && items[i].row == f;
      var k := Rows.OneKeeperEach(items, rejects, i);
      var m :| 0 <= m < |kept| && kept[m] == k;
      assert ks[m] in ks;
    }
  }

  function ByText(ks: seq<Rows.Item>): map<string, Fact> {
    if ks == [] then map[] else ByText(ks[..|ks| - 1])[ks[|ks| - 1].row.text := ks[|ks| - 1].row]
  }

  lemma {:induction false} ByTextKeys(ks: seq<Rows.Item>)
    ensures forall t :: t in ByText(ks) <==> exists k :: k in ks && k.row.text == t
    ensures forall t | t in ByText(ks) :: ByText(ks)[t].text == t
  {
    if ks != [] {
      var init, last := ks[..|ks| - 1], ks[|ks| - 1];
      ByTextKeys(init);
      assert ks == init + [last];
    }
  }

  lemma {:induction false} ByTextHolds(ks: seq<Rows.Item>, i: nat)
    requires OneEach(ks) && i < |ks|
    ensures ks[i].row.text in ByText(ks) && ByText(ks)[ks[i].row.text] == ks[i].row
  {
    if i < |ks| - 1 { ByTextHolds(ks[..|ks| - 1], i); }
  }

  lemma ByTextFinds(ks: seq<Rows.Item>)
    ensures forall t :: t in ByText(ks) <==> exists k :: k in ks && k.row.text == t
    ensures forall t | t in ByText(ks) :: ByText(ks)[t].text == t
    ensures OneEach(ks) ==> forall k | k in ks :: ByText(ks)[k.row.text] == k.row
  {
    ByTextKeys(ks);
    hide ByText, OneEach;
    if OneEach(ks) {
      forall k | k in ks ensures ByText(ks)[k.row.text] == k.row {
        var i :| 0 <= i < |ks| && ks[i] == k;
        ByTextHolds(ks, i);
      }
    }
  }

  // ---------------------------------------------------------------------------------
  // Folding into rows that are there, and moving the rest
  // ---------------------------------------------------------------------------------

  predicate First(rows: seq<Fact>, i: nat)
    requires i < |rows|
  {
    forall j | 0 <= j < i :: rows[j].text != rows[i].text
  }

  function Folded(rows: seq<Fact>, m: map<string, Fact>): (r: seq<Fact>)
    ensures |r| == |rows| && Texts(r) == Texts(rows)
    ensures forall i | 0 <= i < |rows| ::
              r[i] == if First(rows, i) && rows[i].text in m then FoldIn(rows[i], m[rows[i].text]) else rows[i]
  {
    var r := seq(|rows|, i requires 0 <= i < |rows| =>
      if First(rows, i) && rows[i].text in m then FoldIn(rows[i], m[rows[i].text]) else rows[i]);
    assert forall i | 0 <= i < |rows| :: r[i].text == rows[i].text;
    r
  }

  /** The rows of a layer whose text the destination lacks. */
  function Moves(ks: seq<Rows.Item>, hot: bool, there: set<string>): seq<Fact> {
    if ks == [] then [] else
      var k := ks[|ks| - 1];
      Moves(ks[..|ks| - 1], hot, there) + if k.hot == hot && k.row.text !in there then [k.row] else []
  }

  lemma {:induction false} MovesAre(ks: seq<Rows.Item>, hot: bool, there: set<string>)
    ensures forall f | f in Moves(ks, hot, there) :: Rows.Item(hot, f) in ks && f.text !in there
    ensures forall k | k in ks && k.hot == hot && k.row.text !in there :: k.row in Moves(ks, hot, there)
  {
    if ks != [] {
      var init, last := ks[..|ks| - 1], ks[|ks| - 1];
      MovesAre(init, hot, there);
      assert ks == init + [last];
    }
  }

  /** Only the texts of the considered rows matter to what moves. */
  lemma {:induction false} MovesAgree(ks: seq<Rows.Item>, hot: bool, a: set<string>, b: set<string>)
    requires forall k | k in ks && k.hot == hot :: k.row.text in a <==> k.row.text in b
    ensures Moves(ks, hot, a) == Moves(ks, hot, b)
  {
    if ks != [] {
      MovesAgree(ks[..|ks| - 1], hot, a, b);
    }
  }

  function FoldedArchive(active: seq<Fact>, archive: seq<Fact>, ks: seq<Rows.Item>): seq<Fact> {
    Folded(archive, ByText(ks) - Texts(active))
  }

  /** The destination after a whole run. */
  function Absorb(active: seq<Fact>, archive: seq<Fact>, ks: seq<Rows.Item>): Memory {
    var there := Texts(active) + Texts(archive);
    Memory(Folded(active, ByText(ks)) + Moves(ks, true, there),
           FoldedArchive(active, archive, ks) + Moves(ks, false, there))
  }

  // ---------------------------------------------------------------------------------
  // Absorbing again
  // ---------------------------------------------------------------------------------

  /** Every row that could be folded into already carries what it would be given. */
  ghost predicate Closed(rows: seq<Fact>, m: map<string, Fact>) {
    forall i | 0 <= i < |rows| && First(rows, i) && rows[i].text in m :: FoldIn(rows[i], m[rows[i].text]) == rows[i]
  }

  ghost predicate SubMap(a: map<string, Fact>, b: map<string, Fact>) { forall t | t in a :: t in b && a[t] == b[t] }

  lemma ClosedIsFixed(rows: seq<Fact>, m: map<string, Fact>, part: map<string, Fact>)
    requires Closed(rows, m) && SubMap(part, m)
    ensures Folded(rows, part) == rows
  {}

  lemma FoldingCloses(rows: seq<Fact>, m: map<string, Fact>)
    ensures Closed(Folded(rows, m), m)
  {
    var r := Folded(rows, m);
    forall i | 0 <= i < |r| && First(r, i) && r[i].text in m ensures FoldIn(r[i], m[r[i].text]) == r[i] {
      forall j | 0 <= j < i ensures rows[j].text != rows[i].text {
        assert r[j].text == rows[j].text && r[i].text == rows[i].text;
      }
      assert First(rows, i);
    }
  }

  lemma AppendingKeepsClosed(rows: seq<Fact>, more: seq<Fact>, m: map<string, Fact>)
    requires Closed(rows, m) && forall f | f in more :: f.text in m ==> m[f.text] == f
    ensures Closed(rows + more, m)
  {
    var r := rows + more;
    forall i | 0 <= i < |r| && First(r, i) && r[i].text in m ensures FoldIn(r[i], m[r[i].text]) == r[i] {
      if i < |rows| {
        assert forall j | 0 <= j < i :: r[j] == rows[j];
        assert First(rows, i);
      } else {
        assert r[i] == more[i - |rows|];
      }
    }
  }

  /** Both halves of an absorbed memory are closed under every map they were folded with. */
  lemma AbsorbedIsClosed(active: seq<Fact>, archive: seq<Fact>, ks: seq<Rows.Item>)
    requires OneEach(ks)
    ensures Closed(Absorb(active, archive, ks).active, ByText(ks))
    ensures Closed(Absorb(active, archive, ks).archive, ByText(ks) - Texts(active))
    ensures Closed(FoldedArchive(active, archive, ks), ByText(ks) - Texts(active))
  {
    var m, there := ByText(ks), Texts(active) + Texts(archive);
    ByTextFinds(ks);
    FoldingCloses(active, m);
    FoldingCloses(archive, m - Texts(active));
    MovesAre(ks, true, there);
    MovesAre(ks, false, there);
    AppendingKeepsClosed(Folded(active, m), Moves(ks, true, there), m);
    AppendingKeepsClosed(FoldedArchive(active, archive, ks), Moves(ks, false, there), m - Texts(active));
  }

  lemma {:induction false} AbsorbedTexts(active: seq<Fact>, archive: seq<Fact>, ks: seq<Rows.Item>)
    ensures var r := Absorb(active, archive, ks);
            && (forall k | k in ks :: k.row.text in Texts(r.active) + Texts(r.archive))
            && Texts(active) <= Texts(r.active) && Texts(archive) <= Texts(r.archive)
            && (forall t | t in Texts(r.active) - Texts(active) ::
                  exists k | k in ks :: k.hot && k.row.text == t && t !in Texts(active) + Texts(archive))
            && (forall t | t in Texts(r.archive) - Texts(archive) ::
                  exists k | k in ks :: !k.hot && k.row.text == t && t !in Texts(active) + Texts(archive))
  {
    var m, there := ByText(ks), Texts(active) + Texts(archive);
    MovesAre(ks, true, there);
    MovesAre(ks, false, there);
    TextsConcat(Folded(active, m), Moves(ks, true, there));
    TextsConcat(FoldedArchive(active, archive, ks), Moves(ks, false, there));
    forall k | k in ks ensures k.row.text in Texts(Absorb(active, archive, ks).active) + Texts(Absorb(active, archive, ks).archive) {
      if k.row.text !in there { assert k.row in Moves(ks, k.hot, there); }
    }
  }

  lemma NoMoves(ks: seq<Rows.Item>, hot: bool, there: set<string>)
    requires forall k | k in ks && k.hot == hot :: k.row.text in there
    ensures Moves(ks, hot, there) == []
  {
    MovesAre(ks, hot, there);
    assert forall f :: f !in Moves(ks, hot, there);
  }

  /** Absorbing part of what has been absorbed changes nothing. */
  lemma {:induction false} AbsorbAgain(active: seq<Fact>, archive: seq<Fact>, ks: seq<Rows.Item>, part: seq<Rows.Item>)
    requires OneEach(ks) && OneEach(part) && forall k | k in part :: k in ks
    ensures var r := Absorb(active, archive, ks); Absorb(r.active, r.archive, part) == r
  {
    var r := Absorb(active, archive, ks);
    var there := Texts(r.active) + Texts(r.archive);
    AbsorbedIsClosed(active, archive, ks);
    AbsorbedTexts(active, archive, ks);
    assert r.active + [] == r.active && r.archive + [] == r.archive;
    hide Closed, Folded, ByText, Moves, OneEach;
    ByTextFinds(ks);
    ByTextFinds(part);
    ClosedIsFixed(r.active, ByText(ks), ByText(part));
    ClosedIsFixed(r.archive, ByText(ks) - Texts(active), ByText(part) - Texts(r.active));
    NoMoves(part, true, there);
    NoMoves(part, false, there);
  }

  /** Absorbing after the fold of the archive ends the same ... */
  lemma AbsorbFromFolded(active: seq<Fact>, archive: seq<Fact>, ks: seq<Rows.Item>)
    requires OneEach(ks)
    ensures Absorb(active, FoldedArchive(active, archive, ks), ks) == Absorb(active, archive, ks)
  {
    var stage, m := FoldedArchive(active, archive, ks), ByText(ks) - Texts(active);
    AbsorbedIsClosed(active, archive, ks);
    hide Closed, Folded, ByText, Moves, OneEach;
    assert Texts(stage) == Texts(archive);
    ClosedIsFixed(stage, m, m);
  }

  /** ... and so does absorbing after the archive is complete. */
  lemma AbsorbFromArchived(active: seq<Fact>, archive: seq<Fact>, ks: seq<Rows.Item>)
    requires OneEach(ks)
    ensures Absorb(active, Absorb(active, archive, ks).archive, ks) == Absorb(active, archive, ks)
  {
    var stage, m, there := Absorb(active, archive, ks).archive, ByText(ks) - Texts(active), Texts(active) + Texts(archive);
    AbsorbedIsClosed(active, archive, ks);
    hide Closed;
    ClosedIsFixed(stage, m, m);
    ColdTextsThere(active, archive, ks);
    hide Folded, ByText, Moves, OneEach, Texts;
    NoMoves(ks, false, Texts(active) + Texts(stage));
    MovesAgree(ks, true, there, Texts(active) + Texts(stage));
    assert Folded(stage, m) + [] == stage;
  }

  /** The complete archive has every cold text and no hot one that was not there before. */
  lemma ColdTextsThere(active: seq<Fact>, archive: seq<Fact>, ks: seq<Rows.Item>)
    requires OneEach(ks)
    ensures var there, now := Texts(active) + Texts(archive), Texts(active) + Texts(Absorb(active, archive, ks).archive);
            && (forall k | k in ks && !k.hot :: k.row.text in now)
            && (forall k | k in ks && k.hot :: k.row.text in there <==> k.row.text in now)
  {
    var stage, there := Absorb(active, archive, ks).archive, Texts(active) + Texts(archive);
    MovesAre(ks, false, there);
    TextsConcat(FoldedArchive(active, archive, ks), Moves(ks, false, there));
    hide Folded, ByText, Moves, OneEach;
    forall k | k in ks && !k.hot ensures k.row.text in Texts(active) + Texts(stage) {
      if k.row.text !in there { assert k.row in Moves(ks, false, there); }
    }
    forall k | k in ks && k.hot ensures k.row.text in there <==> k.row.text in Texts(active) + Texts(stage) {
      HotIsNotCold(ks, k, Texts(Moves(ks, false, there)));
    }
  }

  lemma HotIsNotCold(ks: seq<Rows.Item>, k: Rows.Item, cold: set<string>)
    requires OneEach(ks) && k in ks && k.hot
    requires forall t | t in cold :: exists c | c in ks :: !c.hot && c.row.text == t
    ensures k.row.text !in cold
  {
    forall c | c in ks && !c.hot ensures c.row.text != k.row.text {
      var i :| 0 <= i < |ks| && ks[i] == k;
      var j :| 0 <= j < |ks| && ks[j] == c;
    }
  }

  // ---------------------------------------------------------------------------------
  // Where an interrupted run stops, and where the next one ends
  // ---------------------------------------------------------------------------------

  /** The destination that an uninterrupted run from here ends with. */
  function Outcome(s: Stores, rejects: string -> bool): Memory {
    Absorb(s.dstActive, s.dstArchive, Considered(s, rejects))
  }

  /** The rows that a run from here adds to one half of the destination. */
  function Added(s: Stores, rejects: string -> bool, hot: bool): seq<Fact> {
    Moves(Considered(s, rejects), hot, Texts(s.dstActive) + Texts(s.dstArchive))
  }

  /** What is on disk between two writes of a run from `s`. */
  ghost predicate Stage(s: Stores, rejects: string -> bool, now: Stores) {
    var end := Outcome(s, rejects);
    var ks := Considered(s, rejects);
    || now == s
    || now == s.(dstArchive := FoldedArchive(s.dstActive, s.dstArchive, ks))
    || now == s.(dstArchive := end.archive)
    || now == s.(dstActive := end.active, dstArchive := end.archive)
    || now == Stores(s.srcActive, [], end.active, end.archive)
    || now == Stores([], [], end.active, end.archive)
  }

  /** Without its archive, the source offers part of what it offered. */
  lemma ActiveIsPart(s: Stores, rejects: string -> bool)
    ensures forall k | k in Considered(s.(srcArchive := []), rejects) :: k in Considered(s, rejects)
  {
    var some, all := Items(s.srcActive, []), Items(s.srcActive, s.srcArchive);
    var kept, wide := Rows.Keepers(some, rejects, |some|), Rows.Keepers(all, rejects, |all|);
    var part, ks := Considered(s.(srcArchive := []), rejects), Considered(s, rejects);
    forall m | 0 <= m < |part| ensures part[m] in ks {
      var i := kept[m];
      assert Rows.Keeper(all, rejects, i) by {
        forall j | 0 <= j < |all| && Rows.SameText(all, i, j) ensures Rows.Outranks(all, i, j) {
          if j < |some| { assert Rows.SameText(some, i, j) && Rows.Outranks(some, i, j); }
        }
      }
      var n :| 0 <= n < |wide| && wide[n] == i;
      assert ks[n] == part[m];
    }
  }

  lemma EmptyOffersNothing(s: Stores, rejects: string -> bool)
    requires s.srcActive == [] && s.srcArchive == []
    ensures Considered(s, rejects) == []
  {}

  /** Resuming from any interruption ends with the same destination. */
  lemma {:induction false} ResumeEndsTheSame(s: Stores, rejects: string -> bool, now: Stores)
    requires Stage(s, rejects, now)
    ensures Outcome(now, rejects) == Outcome(s, rejects)
  {
    var ks, end, part := Considered(s, rejects), Outcome(s, rejects), Considered(now, rejects);
    ConsideredOnce(s, rejects);
    ConsideredOnce(now, rejects);
    ActiveIsPart(s, rejects);
    assert forall k | k in part :: k in ks by {
      if now.srcActive == [] && now.srcArchive == [] { EmptyOffersNothing(now, rejects); }
      assert now.srcArchive == s.srcArchive && now.srcActive == s.srcActive ==> part == ks;
      assert now.srcArchive == [] && now.srcActive == s.srcActive ==> part == Considered(s.(srcArchive := []), rejects);
    }
    AbsorbFromFolded(s.dstActive, s.dstArchive, ks);
    AbsorbFromArchived(s.dstActive, s.dstArchive, ks);
    AbsorbAgain(s.dstActive, s.dstArchive, ks, part);
  }

  // ---------------------------------------------------------------------------------
  // The plan as the program computes it
  // ---------------------------------------------------------------------------------

  function Updated(rows: seq<Fact>, updates: map<nat, Fact>): (r: seq<Fact>)
    ensures |r| == |rows| && forall i | 0 <= i < |rows| :: r[i] == if i in updates then updates[i] else rows[i]
  {
    seq(|rows|, i requires 0 <= i < |rows| => if i in updates then updates[i] else rows[i])
  }

  method FirstIndex(rows: seq<Fact>) returns (index: map<string, nat>)
    ensures Indexes(index, rows)
  {
    index := map[];
    for i := 0 to |rows|
      invariant forall j | 0 <= j < i :: rows[j].text in index
      invariant forall t | t in index :: index[t] < i && rows[index[t]].text == t && First(rows, index[t])
    {
      if rows[i].text !in index { index := index[rows[i].text := i]; }
    }
  }

  lemma FoldOneMore(rows: seq<Fact>, m: map<string, Fact>, k: Fact, i: nat)
    requires i < |rows| && First(rows, i) && rows[i].text == k.text && k.text !in m
    ensures Folded(rows, m[k.text := k]) == Folded(rows, m)[i := FoldIn(rows[i], k)]
    ensures Folded(rows, m)[i] == rows[i]
  {
    forall j | 0 <= j < |rows| && j != i && First(rows, j) ensures rows[j].text != k.text {
      if j < i { assert rows[j].text != rows[i].text; } else { assert rows[i].text != rows[j].text; }
    }
  }

  lemma FoldNoMore(rows: seq<Fact>, m: map<string, Fact>, k: Fact)
    requires k.text !in Texts(rows)
    ensures Folded(rows, m[k.text := k]) == Folded(rows, m)
  {
    assert forall j | 0 <= j < |rows| :: rows[j].text in Texts(rows);
  }

  /** The updates made so far are the fold of the rows seen so far, and each changes its row. */
  ghost predicate UpdatesSoFar(rows: seq<Fact>, updates: map<nat, Fact>, m: map<string, Fact>) {
    && Updated(rows, updates) == Folded(rows, m)
    && forall i | i in updates :: i < |rows| && rows[i].text in m && updates[i] != rows[i]
  }

  method FoldRow(rows: seq<Fact>, updates: map<nat, Fact>, ghost m: map<string, Fact>, i: nat, k: Fact)
    returns (more: map<nat, Fact>)
    requires UpdatesSoFar(rows, updates, m) && k.text !in m
    requires i < |rows| && First(rows, i) && rows[i].text == k.text
    ensures UpdatesSoFar(rows, more, m[k.text := k])
  {
    var folded := FoldIn(rows[i], k);
    FoldOneMore(rows, m, k, i);
    more := if folded != rows[i] then updates[i := folded] else updates;
    assert Updated(rows, more) == Updated(rows, updates)[i := folded];
  }

  /** Rows of the destination to rewrite, by position, and rows to add. */
  datatype Plan = Plan(activeUpdates: map<nat, Fact>, archiveUpdates: map<nat, Fact>,
                       moveActive: seq<Fact>, moveArchive: seq<Fact>)

  ghost predicate Plans(active: seq<Fact>, archive: seq<Fact>, ks: seq<Rows.Item>, plan: Plan) {
    var there := Texts(active) + Texts(archive);
    && UpdatesSoFar(active, plan.activeUpdates, ByText(ks))
    && UpdatesSoFar(archive, plan.archiveUpdates, ByText(ks) - Texts(active))
    && plan.moveActive == Moves(ks, true, there)
    && plan.moveArchive == Moves(ks, false, there)
  }

  ghost predicate Indexes(index: map<string, nat>, rows: seq<Fact>) {
    && (forall t :: t in index <==> t in Texts(rows))
    && (forall t | t in index :: index[t] < |rows| && rows[index[t]].text == t && First(rows, index[t]))
  }

  method PlanRow(active: seq<Fact>, archive: seq<Fact>, inActive: map<string, nat>, inArchive: map<string, nat>,
                 ghost ks: seq<Rows.Item>, k: Rows.Item, plan: Plan) returns (next: Plan)
    requires OneEach(ks + [k]) && Plans(active, archive, ks, plan)
    requires Indexes(inActive, active) && Indexes(inArchive, archive)
    ensures Plans(active, archive, ks + [k], next)
  {
    hide Folded, Updated, UpdatesSoFar, OneEach, First;
    ghost var m := ByText(ks);
    PlanStep(active, archive, ks, k);
    next := plan;
    if k.row.text in inActive {
      var updates := FoldRow(active, plan.activeUpdates, m, inActive[k.row.text], k.row);
      next := plan.(activeUpdates := updates);
    } else if k.row.text in inArchive {
      var updates := FoldRow(archive, plan.archiveUpdates, m - Texts(active), inArchive[k.row.text], k.row);
      next := plan.(archiveUpdates := updates);
      UpdatesMayGrow(active, plan.activeUpdates, m, k.row);
    } else {
      next := if k.hot then plan.(moveActive := plan.moveActive + [k.row])
              else plan.(moveArchive := plan.moveArchive + [k.row]);
      UpdatesMayGrow(active, plan.activeUpdates, m, k.row);
      UpdatesMayGrow(archive, plan.archiveUpdates, m - Texts(active), k.row);
    }
  }

  lemma UpdatesMayGrow(rows: seq<Fact>, updates: map<nat, Fact>, m: map<string, Fact>, k: Fact)
    requires UpdatesSoFar(rows, updates, m) && k.text !in Texts(rows)
    ensures UpdatesSoFar(rows, updates, m[k.text := k])
  {
    FoldNoMore(rows, m, k);
  }

  lemma NothingPlanned(active: seq<Fact>, archive: seq<Fact>)
    ensures Plans(active, archive, [], Plan(map[], map[], [], []))
  {}

  lemma OneEachBefore(ks: seq<Rows.Item>, n: nat)
    requires OneEach(ks) && n <= |ks|
    ensures OneEach(ks[..n])
  {}

  method RetirePlan(items: seq<Rows.Item>, active: seq<Fact>, archive: seq<Fact>, rejects: string -> bool)
    returns (plan: Plan)
    ensures Plans(active, archive, At(items, Rows.Keepers(items, rejects, |items|)), plan)
  {
    hide Plans, OneEach, At, Rows.Keepers;
    var kept := Rows.Survivors(items, rejects);
    var ks := At(items, kept);
    OneKept(items, rejects);
    NothingPlanned(active, archive);
    var inActive := FirstIndex(active);
    var inArchive := FirstIndex(archive);
    plan := Plan(map[], map[], [], []);
    for n := 0 to |ks|
      invariant Plans(active, archive, ks[..n], plan)
    {
      assert ks[..n + 1] == ks[..n] + [ks[n]];
      OneEachBefore(ks, n + 1);
      plan := PlanRow(active, archive, inActive, inArchive, ks[..n], ks[n], plan);
    }
    assert ks[..|ks|] == ks;
  }

  lemma PlanStep(active: seq<Fact>, archive: seq<Fact>, ks: seq<Rows.Item>, k: Rows.Item)
    requires OneEach(ks + [k])
    ensures var m := ByText(ks);
            && k.row.text !in m
            && ByText(ks + [k]) == m[k.row.text := k.row]
            && (k.row.text in Texts(active) ==> ByText(ks + [k]) - Texts(active) == m - Texts(active))
            && (k.row.text !in Texts(active) ==> ByText(ks + [k]) - Texts(active) == (m - Texts(active))[k.row.text := k.row])
    ensures forall hot, there :: Moves(ks + [k], hot, there) ==
              Moves(ks, hot, there) + if k.hot == hot && k.row.text !in there then [k.row] else []
  {
    ByTextFinds(ks);
    assert (ks + [k])[..|ks|] == ks;
    forall i | 0 <= i < |ks| ensures ks[i].row.text != k.row.text {
      assert (ks + [k])[i].row.text != (ks + [k])[|ks|].row.text;
    }
  }

  // ---------------------------------------------------------------------------------
  // The writes
  // ---------------------------------------------------------------------------------

  /** What becomes of a write: `Lost` returns normally and leaves the old file. */
  datatype Fate = Lands | Lost | Raises | KilledBefore | KilledAfter

  predicate Takes(fate: Fate) { fate == Lands || fate == KilledAfter }

  predicate Stops(fate: Fate) { fate == Raises || fate == KilledBefore || fate == KilledAfter }

  datatype Fates = Fates(fold: Fate, archive: Fate, active: Fate, clearArchive: Fate, clearActive: Fate)

  ghost predicate Honest(w: Fates) {
    w.fold != Lost && w.archive != Lost && w.active != Lost && w.clearArchive != Lost && w.clearActive != Lost
  }

  /** The archive of the destination once its two writes have returned. */
  function ColdEnd(s: Stores, rejects: string -> bool, w: Fates): seq<Fact> {
    (if w.fold == Lost then s.dstArchive else FoldedArchive(s.dstActive, s.dstArchive, Considered(s, rejects)))
    + if w.archive == Lost then [] else Added(s, rejects, false)
  }

  function HotEnd(s: Stores, rejects: string -> bool, w: Fates): seq<Fact> {
    if w.active == Lost then s.dstActive else Outcome(s, rejects).active
  }

  /** The counts read back differ from those expected when a lost write was to add rows ... */
  predicate CountsDiffer(s: Stores, rejects: string -> bool, w: Fates) {
    (w.archive == Lost && Added(s, rejects, false) != []) || (w.active == Lost && Added(s, rejects, true) != [])
  }

  /** ... and not when it was to change some. */
  predicate FoldIsLost(s: Stores, rejects: string -> bool, w: Fates) {
    var ks := Considered(s, rejects);
    || (w.fold == Lost && FoldedArchive(s.dstActive, s.dstArchive, ks) != s.dstArchive)
    || (w.active == Lost && Folded(s.dstActive, ByText(ks)) != s.dstActive)
  }

  /** Where the counts agree, the destination is as planned exactly if no fold was lost. */
  lemma OnlyLostFoldsShow(s: Stores, rejects: string -> bool, w: Fates)
    requires !CountsDiffer(s, rejects, w)
    ensures Memory(HotEnd(s, rejects, w), ColdEnd(s, rejects, w)) == Outcome(s, rejects) <==> !FoldIsLost(s, rejects, w)
  {
    var ks, more := Considered(s, rejects), Added(s, rejects, false);
    var fa, fr := Folded(s.dstActive, ByText(ks)), FoldedArchive(s.dstActive, s.dstArchive, ks);
    var end := Outcome(s, rejects);
    assert end.active == fa + Added(s, rejects, true) && end.archive == fr + more;
    hide Outcome, Considered, Folded, FoldedArchive, Added, ByText;
    assert w.active == Lost ==> end.active == fa;
    assert (s.dstArchive + more)[..|s.dstArchive|] == s.dstArchive && (fr + more)[..|s.dstArchive|] == fr;
  }

  /** A write of the destination is made only where it changes something; and such a one can stop the run. */
  ghost predicate FoldsCold(s: Stores, rejects: string -> bool) {
    FoldedArchive(s.dstActive, s.dstArchive, Considered(s, rejects)) != s.dstArchive
  }

  ghost predicate ColdStops(s: Stores, rejects: string -> bool, w: Fates) {
    (FoldsCold(s, rejects) && Stops(w.fold)) || (Added(s, rejects, false) != [] && Stops(w.archive))
  }

  ghost predicate Halts(s: Stores, rejects: string -> bool, w: Fates) {
    ColdStops(s, rejects, w) || (Outcome(s, rejects).active != s.dstActive && Stops(w.active))
  }

  /** What the run leaves of the destination, wherever it ends. */
  ghost function ColdLeft(s: Stores, rejects: string -> bool, w: Fates): seq<Fact> {
    (if Takes(w.fold) then FoldedArchive(s.dstActive, s.dstArchive, Considered(s, rejects)) else s.dstArchive)
    + if Takes(w.archive) && !(FoldsCold(s, rejects) && Stops(w.fold)) then Added(s, rejects, false) else []
  }

  ghost function HotLeft(s: Stores, rejects: string -> bool, w: Fates): seq<Fact> {
    if Takes(w.active) && !ColdStops(s, rejects, w) then Outcome(s, rejects).active else s.dstActive
  }

  /** The source is cleared, archive first, only behind a migration whose counts agree. */
  ghost function Left(s: Stores, rejects: string -> bool, w: Fates): Stores {
    var through := !Halts(s, rejects, w) && !CountsDiffer(s, rejects, w);
    Stores(if through && !Stops(w.clearArchive) && Takes(w.clearActive) then [] else s.srcActive,
           if through && Takes(w.clearArchive) then [] else s.srcArchive,
           HotLeft(s, rejects, w), ColdLeft(s, rejects, w))
  }

  ghost predicate Clears(s: Stores, rejects: string -> bool, w: Fates) {
    && !Halts(s, rejects, w) && !CountsDiffer(s, rejects, w)
    && !Stops(w.clearArchive) && !Stops(w.clearActive)
  }

  /** Where nothing stops the migration, what is left is where its writes end. */
  lemma LeftIsEnd(s: Stores, rejects: string -> bool, w: Fates)
    ensures !ColdStops(s, rejects, w) ==> ColdLeft(s, rejects, w) == ColdEnd(s, rejects, w)
    ensures !Halts(s, rejects, w) ==>
              HotLeft(s, rejects, w) == HotEnd(s, rejects, w) && ColdLeft(s, rejects, w) == ColdEnd(s, rejects, w)
  {
    hide Outcome, Considered, FoldedArchive, Added;
  }

  /** The source is as it was, or the destination holds everything of it that was not rejected. */
  ghost predicate Safe(was: Stores, rejects: string -> bool, now: Stores) {
    || (now.srcActive == was.srcActive && now.srcArchive == was.srcArchive)
    || Held(was, rejects, now)
  }

  /** Everything of the source that was not rejected is in the destination. */
  ghost predicate Held(was: Stores, rejects: string -> bool, now: Stores) {
    forall f | (f in was.srcActive || f in was.srcArchive) && !rejects(f.text) ::
      f.text in Texts(now.dstActive) + Texts(now.dstArchive)
  }

  lemma AppendingArchives(rows: seq<Fact>, more: seq<Fact>)
    requires forall f | f in more :: f.text !in Texts(rows)
    ensures Cold.Archived(rows, more) == rows + more
  {
    assert forall i | 0 <= i < |rows| :: rows[i].text in Texts(rows);
    Cold.WhereAll(rows, Cold.TextNotIn(more));
  }

  lemma HonestEnd(s: Stores, rejects: string -> bool, w: Fates)
    requires Honest(w)
    ensures Memory(HotEnd(s, rejects, w), ColdEnd(s, rejects, w)) == Outcome(s, rejects)
  {}

  class Pair {
    var srcActive: seq<Fact>
    var srcArchive: seq<Fact>
    var dstActive: seq<Fact>
    var dstArchive: seq<Fact>
    ghost var history: seq<Stores>

    function Now(): Stores
      reads this
    {
      Stores(srcActive, srcArchive, dstActive, dstArchive)
    }

    /** Every state since `from` is one that the run may leave behind. */
    ghost predicate Since(from: nat, was: Stores, rejects: string -> bool, honest: bool)
      reads this
    {
      from <= |history| && forall h | from <= h < |history| :: Fine(was, rejects, honest, history[h])
    }

    /** What is on disk is the last thing recorded, if anything was written. */
    ghost predicate Logged(earlier: seq<Stores>, was: Stores)
      reads this
    {
      earlier <= history && if history == earlier then Now() == was else history[|history| - 1] == Now()
    }

    method PutActive(rows: seq<Fact>, fate: Fate, ghost from: nat, ghost was: Stores, ghost rejects: string -> bool,
                     ghost honest: bool) returns (stops: bool)
      requires Since(from, was, rejects, honest)
      requires Takes(fate) ==> Fine(was, rejects, honest, Now().(dstActive := rows))
      modifies this`dstActive, this`history
      ensures Since(from, was, rejects, honest) && old(history) <= history
      ensures dstActive == if Takes(fate) then rows else old(dstActive)
      ensures stops == Stops(fate)
      ensures history == old(history) + if Takes(fate) then [Now()] else []
    {
      if Takes(fate) {
        dstActive := rows;
        history := history + [Now()];
      }
      stops := Stops(fate);
    }

    method PutArchive(rows: seq<Fact>, fate: Fate, ghost from: nat, ghost was: Stores, ghost rejects: string -> bool,
                      ghost honest: bool) returns (stops: bool)
      requires Since(from, was, rejects, honest)
      requires Takes(fate) ==> Fine(was, rejects, honest, Now().(dstArchive := rows))
      modifies this`dstArchive, this`history
      ensures Since(from, was, rejects, honest) && old(history) <= history
      ensures dstArchive == if Takes(fate) then rows else old(dstArchive)
      ensures stops == Stops(fate)
      ensures history == old(history) + if Takes(fate) then [Now()] else []
    {
      if Takes(fate) {
        dstArchive := rows;
        history := history + [Now()];
      }
      stops := Stops(fate);
    }

    /** Step 1b: fold into the destination's archive, if anything changes. */
    method FoldCold(folded: seq<Fact>, changes: bool, fate: Fate, ghost was: Stores, ghost rejects: string -> bool,
                    ghost honest: bool) returns (stops: bool)
      requires Now() == was && (!changes ==> folded == dstArchive)
      requires FineArchive(was, rejects, honest, dstArchive) && FineArchive(was, rejects, honest, folded)
      modifies this`dstArchive, this`history
      ensures old(history) <= history && Since(|old(history)|, was, rejects, honest)
      ensures FineArchive(was, rejects, honest, dstArchive)
      ensures dstArchive == if Takes(fate) then folded else was.dstArchive
      ensures stops == (changes && Stops(fate))
      ensures Logged(old(history), was)
    {
      hide Fine;
      stops := false;
      assert Since(|history|, was, rejects, honest);
      if changes {
        stops := PutArchive(folded, fate, |history|, was, rejects, honest);
      }
    }

    /** archive_facts: the cold rows go to the archive as it is on disk by now. */
    method AddCold(more: seq<Fact>, fate: Fate, ghost from: nat, ghost was: Stores, ghost rejects: string -> bool,
                   ghost honest: bool) returns (stops: bool)
      requires Since(from, was, rejects, honest) && Cold.Archived(dstArchive, more) == dstArchive + more
      requires Now() == was.(dstArchive := dstArchive) && FineArchive(was, rejects, honest, dstArchive)
      requires fate != Lost ==> FineArchive(was, rejects, honest, dstArchive + more)
      modifies this`dstArchive, this`history
      ensures Since(from, was, rejects, honest) && old(history) <= history
      ensures FineArchive(was, rejects, honest, dstArchive)
      ensures dstArchive == old(dstArchive) + if Takes(fate) then more else []
      ensures stops == (more != [] && Stops(fate))
      ensures Logged(old(history), old(Now()))
    {
      hide Fine, Since, Cold.Archived;
      stops := false;
      if more != [] {
        stops := PutArchive(Cold.Archived(dstArchive, more), fate, from, was, rejects, honest);
      }
    }

    /** Fold into the destination's archive, then add the cold rows to it. */
    method MigrateCold(ghost was: Stores, rejects: string -> bool, plan: Plan, w: Fates) returns (stops: bool)
      requires Now() == was && Plans(dstActive, dstArchive, Considered(was, rejects), plan)
      modifies this`dstArchive, this`history
      ensures old(history) <= history && Since(|old(history)|, was, rejects, Honest(w))
      ensures FineArchive(was, rejects, Honest(w), dstArchive)
      ensures dstArchive == ColdLeft(was, rejects, w) && (stops <==> ColdStops(was, rejects, w))
      ensures Logged(old(history), was)
    {
      hide Plans, Updated, Considered, FineArchive, Cold.Archived, ColdLeft, ColdStops, Since;
      ghost var from := |history|;
      FineCold(was, rejects, plan, Honest(w));
      ColdLeftIs(was, rejects, plan, w);
      var folded := Updated(dstArchive, plan.archiveUpdates);
      stops := FoldCold(folded, plan.archiveUpdates != map[], w.fold, was, rejects, Honest(w));
      if stops { return; }
      stops := AddCold(plan.moveArchive, w.archive, from, was, rejects, Honest(w));
    }

    /** Steps 1b to 2b: fold, move cold, move hot, and count what is there. */
    method Migrate(ghost was: Stores, rejects: string -> bool, plan: Plan, w: Fates) returns (verified: bool)
      requires Now() == was && Plans(dstActive, dstArchive, Considered(was, rejects), plan)
      modifies this`dstActive, this`dstArchive, this`history
      ensures old(history) <= history && Since(|old(history)|, was, rejects, Honest(w))
      ensures Fine(was, rejects, Honest(w), Now())
      ensures verified ==> Held(was, rejects, Now())
      ensures verified <==> !Halts(was, rejects, w) && !CountsDiffer(was, rejects, w)
      ensures dstActive == HotLeft(was, rejects, w) && dstArchive == ColdLeft(was, rejects, w)
      ensures Logged(old(history), was)
    {
      hide Plans, Outcome, Updated, Considered, Held, Fine, FineArchive, Since, ColdEnd, HotEnd, CountsDiffer;
      hide ColdLeft, ColdStops;
      var folded, archived := Updated(dstActive, plan.activeUpdates), |dstArchive|;
      ghost var from := |history|;
      HotEndIs(was, rejects, plan, w);
      LeftIsEnd(was, rejects, w);
      FineHot(was, rejects, w);
      verified := false;
      var stops := MigrateCold(was, rejects, plan, w);
      FineArchiveIsFine(was, rejects, Honest(w), dstArchive);
      if stops { return; }
      if plan.moveActive != [] || plan.activeUpdates != map[] {
        stops := PutActive(folded + plan.moveActive, w.active, from, was, rejects, Honest(w));
        if stops { return; }
      }
      verified := |dstActive| == |folded| + |plan.moveActive| && |dstArchive| == archived + |plan.moveArchive|;
      if verified {
        assert Now() == was.(dstActive := HotEnd(was, rejects, w), dstArchive := ColdEnd(was, rejects, w));
        EndIsHeld(was, rejects, w);
      }
    }

    method ClearArchive(fate: Fate, ghost from: nat, ghost was: Stores, ghost rejects: string -> bool,
                        ghost honest: bool)
      returns (stops: bool)
      requires Since(from, was, rejects, honest)
      requires Takes(fate) ==> Fine(was, rejects, honest, Now().(srcArchive := []))
      modifies this`srcArchive, this`history
      ensures Since(from, was, rejects, honest) && old(history) <= history
      ensures srcArchive == if Takes(fate) then [] else old(srcArchive)
      ensures stops == Stops(fate)
      ensures history == old(history) + if Takes(fate) then [Now()] else []
    {
      if Takes(fate) {
        srcArchive := [];
        history := history + [Now()];
      }
      stops := Stops(fate);
    }

    method ClearActive(fate: Fate, ghost from: nat, ghost was: Stores, ghost rejects: string -> bool,
                       ghost honest: bool)
      returns (stops: bool)
      requires Since(from, was, rejects, honest)
      requires Takes(fate) ==> Fine(was, rejects, honest, Now().(srcActive := []))
      modifies this`srcActive, this`history
      ensures Since(from, was, rejects, honest) && old(history) <= history
      ensures srcActive == if Takes(fate) then [] else old(srcActive)
      ensures stops == Stops(fate)
      ensures history == old(history) + if Takes(fate) then [Now()] else []
    {
      if Takes(fate) {
        srcActive := [];
        history := history + [Now()];
      }
      stops := Stops(fate);
    }

    method ClearSource(ghost from: nat, ghost was: Stores, ghost rejects: string -> bool, w: Fates)
      returns (cleared: bool)
      requires Since(from, was, rejects, Honest(w)) && Fine(was, rejects, Honest(w), Now()) && Held(was, rejects, Now())
      requires Honest(w) ==>
                 Now() == was.(dstActive := Outcome(was, rejects).active, dstArchive := Outcome(was, rejects).archive)
      modifies this`srcActive, this`srcArchive, this`history
      ensures Since(from, was, rejects, Honest(w)) && old(history) <= history
      ensures Fine(was, rejects, Honest(w), Now()) && Held(was, rejects, Now())
      ensures (srcActive == old(srcActive) || srcActive == []) && (srcArchive == old(srcArchive) || srcArchive == [])
      ensures srcArchive == if Takes(w.clearArchive) then [] else old(srcArchive)
      ensures srcActive == if !Stops(w.clearArchive) && Takes(w.clearActive) then [] else old(srcActive)
      ensures cleared <==> !Stops(w.clearArchive) && !Stops(w.clearActive)
      ensures Logged(old(history), old(Now()))
    {
      FineCleared(was, rejects, Honest(w), Now());
      hide Outcome, Held, Fine, Since;
      cleared := false;
      var stops := ClearArchive(w.clearArchive, from, was, rejects, Honest(w));
      if stops { return; }
      stops := ClearActive(w.clearActive, from, was, rejects, Honest(w));
      cleared := !stops;
    }

    /** `/retire ... apply`: `confirmed` says that the plan is the one the dry run showed. */
    method Apply(rejects: string -> bool, otherLayers: bool, confirmed: bool, snapshot: bool, w: Fates)
      returns (cleared: bool)
      modifies this
      ensures old(history) <= history && Since(|old(history)|, old(Now()), rejects, Honest(w))
      ensures Fine(old(Now()), rejects, Honest(w), Now())
      ensures cleared ==> Held(old(Now()), rejects, Now())
      ensures (srcActive == old(srcActive) || srcActive == []) && (srcArchive == old(srcArchive) || srcArchive == [])
      // What it ends with, whatever is lost; and exactly when that is the destination that was planned.
      ensures cleared ==>
                && dstActive == HotEnd(old(Now()), rejects, w) && dstArchive == ColdEnd(old(Now()), rejects, w)
                && srcActive == (if w.clearActive == Lost then old(srcActive) else [])
                && srcArchive == (if w.clearArchive == Lost then old(srcArchive) else [])
      ensures cleared ==>
                (Memory(dstActive, dstArchive) == Outcome(old(Now()), rejects) <==> !FoldIsLost(old(Now()), rejects, w))
      // It clears exactly when no write that it makes stops it and none that was to add rows is lost; and wherever
      // it ends, each of the four files is as stated.
      ensures confirmed && snapshot && (old(srcActive) != [] || old(srcArchive) != [] || otherLayers) ==>
                && (cleared <==> Clears(old(Now()), rejects, w))
                && Now() == Left(old(Now()), rejects, w)
      ensures Logged(old(history), old(Now()))
      // Without the code of the plan or its snapshot, and with nothing to move, nothing is written.
      ensures !confirmed || !snapshot || (old(srcActive) == [] && old(srcArchive) == [] && !otherLayers) ==>
                !cleared && Now() == old(Now()) && history == old(history)
    {
      hide Outcome, Considered, Held, Plans, Items, At, Rows.Keepers, HotEnd, ColdEnd, CountsDiffer, FoldIsLost, Fine;
      hide Halts, HotLeft, ColdLeft;
      ghost var was, from := Now(), |history|;
      StartIsFine(was, rejects, Honest(w));
      ConsideredIs(was, rejects);
      if !CountsDiffer(was, rejects, w) { OnlyLostFoldsShow(was, rejects, w); }
      LeftIsEnd(was, rejects, w);
      if Honest(w) { HonestEnd(was, rejects, w); }
      assert Fine(was, rejects, Honest(w), was) && Since(from, was, rejects, Honest(w));
      hide Since;
      cleared := false;
      if srcActive == [] && srcArchive == [] && !otherLayers { return; }
      var plan := RetirePlan(Items(srcActive, srcArchive), dstActive, dstArchive, rejects);
      if !confirmed || !snapshot { return; }
      var verified := Migrate(was, rejects, plan, w);
      if !verified { return; }
      cleared := ClearSource(from, was, rejects, w);
    }
  }

  lemma StartIsFine(was: Stores, rejects: string -> bool, honest: bool)
    ensures Fine(was, rejects, honest, was)
  {
    StageStates(was, rejects);
    hide Stage;
  }

  lemma ConsideredIs(s: Stores, rejects: string -> bool)
    ensures var items := Items(s.srcActive, s.srcArchive);
            Considered(s, rejects) == At(items, Rows.Keepers(items, rejects, |items|))
  {}

  lemma FineCleared(was: Stores, rejects: string -> bool, honest: bool, now: Stores)
    requires Fine(was, rejects, honest, now) && Held(was, rejects, now)
    requires honest ==>
               now == was.(dstActive := Outcome(was, rejects).active, dstArchive := Outcome(was, rejects).archive)
    ensures Fine(was, rejects, honest, now.(srcArchive := []))
    ensures Fine(was, rejects, honest, now.(srcArchive := [], srcActive := []))
    ensures !honest ==> Fine(was, rejects, honest, now.(srcActive := []))
    ensures Held(was, rejects, now.(srcArchive := [])) && Held(was, rejects, now.(srcActive := []))
    ensures Held(was, rejects, now.(srcArchive := [], srcActive := []))
  {
    StageStates(was, rejects);
    hide Outcome, Considered, Stage;
  }

  lemma StageStates(was: Stores, rejects: string -> bool)
    ensures var end := Outcome(was, rejects);
            && Stage(was, rejects, was)
            && Stage(was, rejects, was.(dstArchive := FoldedArchive(was.dstActive, was.dstArchive, Considered(was, rejects))))
            && Stage(was, rejects, was.(dstArchive := end.archive))
            && Stage(was, rejects, was.(dstActive := end.active, dstArchive := end.archive))
            && Stage(was, rejects, Stores(was.srcActive, [], end.active, end.archive))
            && Stage(was, rejects, Stores([], [], end.active, end.archive))
  {}

  /** A state that a run from `was` may leave on disk. */
  ghost predicate Fine(was: Stores, rejects: string -> bool, honest: bool, now: Stores) {
    && Safe(was, rejects, now)
    && Texts(was.dstActive) <= Texts(now.dstActive)
    && Texts(was.dstArchive) <= Texts(now.dstArchive)
    && (honest ==> Stage(was, rejects, now))
  }

  lemma PlanShape(was: Stores, rejects: string -> bool, plan: Plan)
    requires Plans(was.dstActive, was.dstArchive, Considered(was, rejects), plan)
    ensures var end, fa, fr := Outcome(was, rejects), Updated(was.dstActive, plan.activeUpdates),
                               Updated(was.dstArchive, plan.archiveUpdates);
            && fr == FoldedArchive(was.dstActive, was.dstArchive, Considered(was, rejects))
            && end.active == fa + plan.moveActive && end.archive == fr + plan.moveArchive
            && (plan.activeUpdates == map[] <==> fa == was.dstActive)
            && (plan.archiveUpdates == map[] <==> fr == was.dstArchive)
            && Cold.Archived(fr, plan.moveArchive) == fr + plan.moveArchive
            && Cold.Archived(was.dstArchive, plan.moveArchive) == was.dstArchive + plan.moveArchive
  {
    var ks, there := Considered(was, rejects), Texts(was.dstActive) + Texts(was.dstArchive);
    MovesAre(ks, false, there);
    var fr := Updated(was.dstArchive, plan.archiveUpdates);
    assert Texts(fr) == Texts(was.dstArchive);
    AppendingArchives(fr, plan.moveArchive);
    AppendingArchives(was.dstArchive, plan.moveArchive);
    UpdatesShow(was.dstActive, plan.activeUpdates, ByText(ks));
    UpdatesShow(was.dstArchive, plan.archiveUpdates, ByText(ks) - Texts(was.dstActive));
  }

  lemma UpdatesShow(rows: seq<Fact>, updates: map<nat, Fact>, m: map<string, Fact>)
    requires UpdatesSoFar(rows, updates, m)
    ensures updates == map[] <==> Updated(rows, updates) == rows
  {
    if updates != map[] {
      var i :| i in updates;
      assert Updated(rows, updates)[i] != rows[i];
    } else {
      assert Updated(rows, updates) == rows;
    }
  }

  lemma TextsGrow(rows: seq<Fact>, folded: seq<Fact>, more: seq<Fact>)
    requires Texts(folded) == Texts(rows)
    ensures Texts(rows) <= Texts(rows + more) && Texts(rows) <= Texts(folded + more)
  {
    TextsConcat(rows, more);
    TextsConcat(folded, more);
  }

  ghost predicate FineArchive(was: Stores, rejects: string -> bool, honest: bool, archive: seq<Fact>) {
    Fine(was, rejects, honest, was.(dstArchive := archive))
  }

  /** The states of the destination's archive on the way. */
  lemma FineCold(was: Stores, rejects: string -> bool, plan: Plan, honest: bool)
    requires Plans(was.dstActive, was.dstArchive, Considered(was, rejects), plan)
    ensures var r, fr, mr := was.dstArchive, Updated(was.dstArchive, plan.archiveUpdates), plan.moveArchive;
            && FineArchive(was, rejects, honest, r) && FineArchive(was, rejects, honest, fr)
            && FineArchive(was, rejects, honest, fr + mr)
            && (!honest ==> FineArchive(was, rejects, honest, r + mr))
  {
    PlanShape(was, rejects, plan);
    StageStates(was, rejects);
    TextsGrow(was.dstArchive, Updated(was.dstArchive, plan.archiveUpdates), plan.moveArchive);
    hide Plans, Outcome, Updated, Considered, Stage, FoldedArchive, Cold.Archived, FineArchive;
    assert was.(dstArchive := was.dstArchive) == was;
    IsFineArchive(was, rejects, honest, was.dstArchive);
    IsFineArchive(was, rejects, honest, Updated(was.dstArchive, plan.archiveUpdates));
    IsFineArchive(was, rejects, honest, Updated(was.dstArchive, plan.archiveUpdates) + plan.moveArchive);
    if !honest { IsFineArchive(was, rejects, honest, was.dstArchive + plan.moveArchive); }
  }

  lemma FineArchiveIsFine(was: Stores, rejects: string -> bool, honest: bool, archive: seq<Fact>)
    requires FineArchive(was, rejects, honest, archive)
    ensures Fine(was, rejects, honest, was.(dstArchive := archive))
  {}

  lemma IsFineArchive(was: Stores, rejects: string -> bool, honest: bool, archive: seq<Fact>)
    requires Texts(was.dstArchive) <= Texts(archive)
    requires honest ==> Stage(was, rejects, was.(dstArchive := archive))
    ensures FineArchive(was, rejects, honest, archive)
  {
    hide Stage, Held;
  }

  /** What the two writes of the archive leave, in terms of the plan. */
  lemma {:induction false} ColdLeftIs(was: Stores, rejects: string -> bool, plan: Plan, w: Fates)
    requires Plans(was.dstActive, was.dstArchive, Considered(was, rejects), plan)
    ensures var r, fr, mr := was.dstArchive, Updated(was.dstArchive, plan.archiveUpdates), plan.moveArchive;
            && (plan.archiveUpdates == map[] ==> fr == r)
            && Cold.Archived(r, mr) == r + mr && Cold.Archived(fr, mr) == fr + mr
            && (var halted := plan.archiveUpdates != map[] && Stops(w.fold);
                && ColdLeft(was, rejects, w) == (if Takes(w.fold) then fr else r) + (if Takes(w.archive) && !halted then mr else [])
                && (ColdStops(was, rejects, w) <==> halted || (mr != [] && Stops(w.archive))))
  {
    PlanShape(was, rejects, plan);
    PlannedMoves(was, rejects, plan);
    hide Plans, Updated, Considered, FoldedArchive, Cold.Archived, Added, Outcome;
  }

  /** What the write of the active file leaves, and what the counts then say. */
  lemma HotEndIs(was: Stores, rejects: string -> bool, plan: Plan, w: Fates)
    requires Plans(was.dstActive, was.dstArchive, Considered(was, rejects), plan)
    ensures var a, fa, ma := was.dstActive, Updated(was.dstActive, plan.activeUpdates), plan.moveActive;
            && (plan.activeUpdates == map[] ==> fa == a)
            && Outcome(was, rejects).active == fa + ma && |fa| == |a|
            && (Outcome(was, rejects).active != a <==> ma != [] || plan.activeUpdates != map[])
            && (ma == [] ==> fa + ma == fa)
            && (CountsDiffer(was, rejects, w) <==>
                  |HotEnd(was, rejects, w)| != |a| + |ma|
                  || |ColdEnd(was, rejects, w)| != |was.dstArchive| + |plan.moveArchive|)
  {
    hide Plans, Updated, Considered, Moves, Texts, Cold.Archived, Outcome, ColdEnd, FoldedArchive;
    PlanShape(was, rejects, plan);
    ColdEndIs(was, rejects, plan, w);
    PlannedMoves(was, rejects, plan);
    var fa, ma := Updated(was.dstActive, plan.activeUpdates), plan.moveActive;
    assert (fa + ma)[..|fa|] == fa;
  }

  lemma {:induction false} ColdEndIs(was: Stores, rejects: string -> bool, plan: Plan, w: Fates)
    requires Plans(was.dstActive, was.dstArchive, Considered(was, rejects), plan)
    ensures var r, fr, mr := was.dstArchive, Updated(was.dstArchive, plan.archiveUpdates), plan.moveArchive;
            ColdEnd(was, rejects, w) == (if w.fold == Lost then r else fr) + if w.archive == Lost then [] else mr
  {
    PlanShape(was, rejects, plan);
  }

  lemma PlannedMoves(was: Stores, rejects: string -> bool, plan: Plan)
    requires Plans(was.dstActive, was.dstArchive, Considered(was, rejects), plan)
    ensures plan.moveActive == Added(was, rejects, true) && plan.moveArchive == Added(was, rejects, false)
  {}

  /** Both halves written, the run is at a stage that it may be left at. */
  lemma FineHot(was: Stores, rejects: string -> bool, w: Fates)
    ensures Fine(was, rejects, Honest(w),
                 was.(dstActive := Outcome(was, rejects).active, dstArchive := ColdEnd(was, rejects, w)))
  {
    var fa, fr := Folded(was.dstActive, ByText(Considered(was, rejects))),
                  FoldedArchive(was.dstActive, was.dstArchive, Considered(was, rejects));
    StageStates(was, rejects);
    TextsGrow(was.dstActive, fa, Added(was, rejects, true));
    TextsGrow(was.dstArchive, fr, Added(was, rejects, false));
    TextsGrow(was.dstArchive, fr, []);
    hide Considered, Stage, Folded, FoldedArchive, Moves, ByText;
  }

  /** When the counts agree, the destination holds the source. */
  lemma {:induction false} EndIsHeld(was: Stores, rejects: string -> bool, w: Fates)
    requires !CountsDiffer(was, rejects, w)
    ensures Held(was, rejects, was.(dstActive := HotEnd(was, rejects, w), dstArchive := ColdEnd(was, rejects, w)))
  {
    var ks, there := Considered(was, rejects), Texts(was.dstActive) + Texts(was.dstArchive);
    var active, archive := HotEnd(was, rejects, w), ColdEnd(was, rejects, w);
    ConsideredOnce(was, rejects);
    MovesAre(ks, true, there);
    MovesAre(ks, false, there);
    EndTexts(was, rejects, w);
    hide Considered, HotEnd, ColdEnd;
    forall k | k in ks ensures k.row.text in Texts(active) + Texts(archive) {
      if k.row.text !in there {
        assert k.row in Added(was, rejects, k.hot);
      }
    }
  }

  lemma EndTexts(was: Stores, rejects: string -> bool, w: Fates)
    ensures Texts(was.dstActive) <= Texts(HotEnd(was, rejects, w))
    ensures Texts(was.dstArchive) <= Texts(ColdEnd(was, rejects, w))
    ensures w.active != Lost ==> Texts(Added(was, rejects, true)) <= Texts(HotEnd(was, rejects, w))
    ensures w.archive != Lost ==> Texts(Added(was, rejects, false)) <= Texts(ColdEnd(was, rejects, w))
  {
    var fa, fr := Folded(was.dstActive, ByText(Considered(was, rejects))),
                  FoldedArchive(was.dstActive, was.dstArchive, Considered(was, rejects));
    TextsConcat(fa, Added(was, rejects, true));
    TextsConcat(if w.fold == Lost then was.dstArchive else fr, if w.archive == Lost then [] else Added(was, rejects, false));
    hide Considered, Folded, Moves, ByText;
  }

  // ---------------------------------------------------------------------------------
  // Any number of attempts
  // ---------------------------------------------------------------------------------

  datatype Attempt = Attempt(otherLayers: bool, confirmed: bool, snapshot: bool, w: Fates)

  /** Nothing that was not rejected has left both conversations. */
  ghost predicate Conserved(was: Stores, rejects: string -> bool, now: Stores) {
    forall t | t in Texts(was.dstActive) + Texts(was.dstArchive)
               || (t in Texts(was.srcActive) + Texts(was.srcArchive) && !rejects(t)) ::
      || t in Texts(now.dstActive) + Texts(now.dstArchive)
      || (t in Texts(now.srcActive) + Texts(now.srcArchive) && !rejects(t))
  }

  lemma NothingToAbsorb(s: Stores, rejects: string -> bool)
    requires s.srcActive == [] && s.srcArchive == []
    ensures Outcome(s, rejects) == Memory(s.dstActive, s.dstArchive)
  {
    EmptyOffersNothing(s, rejects);
    ClosedIsFixed(s.dstActive, map[], map[]);
    ClosedIsFixed(s.dstArchive, map[], map[] - Texts(s.dstActive));
  }

  /** An attempt that nothing interrupts. */
  ghost predicate Completes(a: Attempt) { a.confirmed && a.snapshot && a.w == Fates(Lands, Lands, Lands, Lands, Lands) }

  lemma CompletesCleanly(a: Attempt, s: Stores, rejects: string -> bool)
    requires Completes(a)
    ensures a.confirmed && a.snapshot && Clears(s, rejects, a.w)
    ensures Left(s, rejects, a.w).srcActive == [] && Left(s, rejects, a.w).srcArchive == []
  {
    hide Added, Outcome, FoldsCold;
  }

  lemma FineIsStage(was: Stores, rejects: string -> bool, now: Stores)
    requires Fine(was, rejects, true, now)
    ensures Stage(was, rejects, now)
  {}

  /**
    However often a retirement is interrupted and begun again, and whatever writes are silently lost, no text
    leaves both conversations, and one attempt that is not interrupted empties the source. While no write is
    lost, every attempt is heading for the same end.
    */
  method Attempts(pair: Pair, rejects: string -> bool, tries: seq<Attempt>)
    modifies pair
    ensures Conserved(old(pair.Now()), rejects, pair.Now())
    ensures (exists a | a in tries :: Completes(a)) ==> pair.srcActive == [] && pair.srcArchive == []
    ensures (forall a | a in tries :: !a.confirmed || !a.snapshot) ==>
              pair.Now() == old(pair.Now()) && pair.history == old(pair.history)
    ensures (forall a | a in tries :: Honest(a.w)) ==>
              && Outcome(pair.Now(), rejects) == Outcome(old(pair.Now()), rejects)
              && (pair.srcActive == [] && pair.srcArchive == [] ==>
                    Memory(pair.dstActive, pair.dstArchive) == Outcome(old(pair.Now()), rejects))
  {
    hide Outcome, Stage, Fine, Held, Conserved, HotEnd, ColdEnd, FoldIsLost, CountsDiffer, Completes, Honest;
    hide Left, Clears, Pair.Logged;
    ghost var honest := forall a | a in tries :: Honest(a.w);
    ConservedAtFirst(pair.Now(), rejects);
    for n := 0 to |tries|
      invariant honest ==> Outcome(pair.Now(), rejects) == Outcome(old(pair.Now()), rejects)
      invariant Conserved(old(pair.Now()), rejects, pair.Now())
      invariant (forall a | a in tries :: !a.confirmed || !a.snapshot) ==>
                  pair.Now() == old(pair.Now()) && pair.history == old(pair.history)
      invariant (exists i | 0 <= i < n :: Completes(tries[i])) ==> pair.srcActive == [] && pair.srcArchive == []
    {
      var a := tries[n];
      ghost var before := pair.Now();
      if Completes(a) { CompletesCleanly(a, before, rejects); }
      var cleared := pair.Apply(rejects, a.otherLayers, a.confirmed, a.snapshot, a.w);
      StillConserved(old(pair.Now()), rejects, before, Honest(a.w), pair.Now());
      if honest {
        FineIsStage(before, rejects, pair.Now());
        ResumeEndsTheSame(before, rejects, pair.Now());
      }
    }
    if pair.srcActive == [] && pair.srcArchive == [] { NothingToAbsorb(pair.Now(), rejects); }
  }

  lemma ConservedAtFirst(s: Stores, rejects: string -> bool)
    ensures Conserved(s, rejects, s)
  {}

  lemma StillConserved(first: Stores, rejects: string -> bool, was: Stores, honest: bool, now: Stores)
    requires Conserved(first, rejects, was) && Fine(was, rejects, honest, now)
    ensures Conserved(first, rejects, now)
  {
    hide Stage;
  }

  lemma AllThere(s: Stores, rejects: string -> bool, hot: bool)
    requires Texts(s.srcActive) + Texts(s.srcArchive) <= Texts(s.dstActive)
    ensures Added(s, rejects, hot) == []
  {
    var ks, there := Considered(s, rejects), Texts(s.dstActive) + Texts(s.dstArchive);
    assert forall k | k in ks :: k.row in s.srcActive || k.row in s.srcArchive;
    hide Considered, Moves;
    NoMoves(ks, hot, there);
  }

  lemma NothingForArchive(s: Stores, rejects: string -> bool)
    requires Texts(s.srcActive) + Texts(s.srcArchive) <= Texts(s.dstActive)
    ensures FoldedArchive(s.dstActive, s.dstArchive, Considered(s, rejects)) == s.dstArchive
  {
    var ks := Considered(s, rejects);
    assert forall k | k in ks :: k.row in s.srcActive || k.row in s.srcArchive;
    hide Considered, ByText;
    ByTextFinds(ks);
    assert ByText(ks) - Texts(s.dstActive) == map[];
  }

  /** A pin on a row that the destination has, and a write of the active file that is silently lost: no pin remains. */
  method PinGoesUnnoticed(pair: Pair, rejects: string -> bool, t: string) returns (cleared: bool)
    requires pair.Now() == Stores([Fact(t, 0, 0, true)], [], [Fact(t, 0, 0, false)], [])
    modifies pair
    ensures cleared && pair.Now() == Stores([], [], [Fact(t, 0, 0, false)], [])
  {
    hide Outcome, Fine, Held, FoldIsLost, Added, FoldedArchive;
    ghost var s := pair.Now();
    assert Texts(s.srcActive) + Texts(s.srcArchive) <= Texts(s.dstActive) by { assert s.dstActive[0].text == t; }
    AllThere(s, rejects, true);
    AllThere(s, rejects, false);
    NothingForArchive(s, rejects);
    cleared := pair.Apply(rejects, false, true, true, Fates(Lands, Lands, Lost, Lands, Lands));
  }

  // ---------------------------------------------------------------------------------
  // What becomes of a pin
  // ---------------------------------------------------------------------------------

  /** A considered row is in the active layer if any copy is, and pinned if a copy of its layer is. */
  lemma ConsideredPin(s: Stores, rejects: string -> bool, k: Rows.Item)
    requires k in Considered(s, rejects)
    ensures var items := Items(s.srcActive, s.srcArchive);
            && (k.hot <==> exists p | p in items :: p.hot && p.row.text == k.row.text)
            && (k.row.pin <==> exists p | p in items :: p.hot == k.hot && p.row.text == k.row.text && p.row.pin)
  {
    var items := Items(s.srcActive, s.srcArchive);
    var kept, ks := Rows.Keepers(items, rejects, |items|), Considered(s, rejects);
    var m :| 0 <= m < |ks| && ks[m] == k;
    var i := kept[m];
    assert items[i] in items;
    forall p | p in items && p.row.text == k.row.text
      ensures (p.hot ==> k.hot) && (p.hot == k.hot && p.row.pin ==> k.row.pin)
    {
      var j :| 0 <= j < |items| && items[j] == p;
      assert Rows.SameText(items, i, j) && Rows.Outranks(items, i, j);
    }
  }

  /** Some copy of the text is pinned in the layer that is considered: the active one if it has any. */
  predicate PinOffered(s: Stores, t: string) {
    var items := Items(s.srcActive, s.srcArchive);
    var anyHot := exists p | p in items :: p.hot && p.row.text == t;
    exists p | p in items :: p.hot == anyHot && p.row.text == t && p.row.pin
  }

  /** A text new to the destination arrives pinned exactly when a copy of the layer it comes from was. */
  lemma NewRowPin(s: Stores, rejects: string -> bool, g: Fact)
    requires g in Outcome(s, rejects).active + Outcome(s, rejects).archive
    requires g.text !in Texts(s.dstActive) + Texts(s.dstArchive)
    ensures g.pin <==> PinOffered(s, g.text)
  {
    var ks, there := Considered(s, rejects), Texts(s.dstActive) + Texts(s.dstArchive);
    MovesAre(ks, true, there);
    MovesAre(ks, false, there);
    assert g in Moves(ks, true, there) || g in Moves(ks, false, there);
    var hot :| Rows.Item(hot, g) in ks;
    ConsideredPin(s, rejects, Rows.Item(hot, g));
  }

  /** An active row of the destination ends pinned exactly if it was, or it is the first of its text
      and is offered a pin. */
  lemma StandingRowPin(s: Stores, rejects: string -> bool, i: nat)
    requires i < |s.dstActive|
    ensures var g := Outcome(s, rejects).active[i];
            && g.text == s.dstActive[i].text
            && (g.pin <==> s.dstActive[i].pin || (First(s.dstActive, i) && !rejects(g.text) && PinOffered(s, g.text)))
  {
    OfferIs(s, rejects, s.dstActive[i].text);
    hide PinOffered, ByText, Considered;
  }

  /** In the archive also only if no active row has the text. */
  lemma StandingArchivedPin(s: Stores, rejects: string -> bool, i: nat)
    requires i < |s.dstArchive|
    ensures var g := Outcome(s, rejects).archive[i];
            && g.text == s.dstArchive[i].text
            && (g.pin <==>
                  || s.dstArchive[i].pin
                  || (&& First(s.dstArchive, i) && g.text !in Texts(s.dstActive)
                      && !rejects(g.text) && PinOffered(s, g.text)))
  {
    OfferIs(s, rejects, s.dstArchive[i].text);
    hide PinOffered, ByText, Considered;
  }

  lemma OfferIs(s: Stores, rejects: string -> bool, t: string)
    ensures var m := ByText(Considered(s, rejects));
            t in m && m[t].pin <==> !rejects(t) && PinOffered(s, t)
  {
    var ks := Considered(s, rejects);
    ConsideredOnce(s, rejects);
    ByTextFinds(ks);
    if t in ByText(ks) {
      var k :| k in ks && k.row.text == t;
      ConsideredPin(s, rejects, k);
    } else if !rejects(t) && PinOffered(s, t) {
      OfferedIsConsidered(s, rejects, t);
    }
  }

  lemma OfferedIsConsidered(s: Stores, rejects: string -> bool, t: string)
    requires !rejects(t) && PinOffered(s, t)
    ensures exists k | k in Considered(s, rejects) :: k.row.text == t
  {
    var p :| p in Items(s.srcActive, s.srcArchive) && p.row.text == t;
    ConsideredOnce(s, rejects);
    assert p.row in s.srcActive || p.row in s.srcArchive;
  }

  /** So the pin of an archived copy is lost when an unpinned copy is active. */
  lemma ArchivedPinIsLost(t: string, rejects: string -> bool)
    requires !rejects(t)
    ensures var end := Outcome(Stores([Fact(t, 0, 0, false)], [Fact(t, 0, 0, true)], [], []), rejects);
            && (exists g | g in end.active + end.archive :: g.text == t)
            && forall g | g in end.active + end.archive && g.text == t :: !g.pin
  {
    var s := Stores([Fact(t, 0, 0, false)], [Fact(t, 0, 0, true)], [], []);
    hide Outcome, Considered, PinOffered;
    ConsideredOnce(s, rejects);
    assert s.srcActive[0] in s.srcActive;
    var k :| k in Considered(s, rejects) && k.row.text == t;
    RowIsCarried(s, rejects, k);
    NothingIsOffered(t);
    forall g | g in Outcome(s, rejects).active + Outcome(s, rejects).archive && g.text == t ensures !g.pin {
      NewRowPin(s, rejects, g);
    }
  }

  lemma NothingIsOffered(t: string)
    ensures !PinOffered(Stores([Fact(t, 0, 0, false)], [Fact(t, 0, 0, true)], [], []), t)
  {
    var items := Items([Fact(t, 0, 0, false)], [Fact(t, 0, 0, true)]);
    assert items == [Rows.Item(true, Fact(t, 0, 0, false)), Rows.Item(false, Fact(t, 0, 0, true))];
    assert items[0].hot && items[0].row.text == t;
  }

  lemma CarriedBy(rows: seq<Fact>, m: map<string, Fact>, i: nat, k: Fact, more: seq<Fact>, other: seq<Fact>)
    requires i < |rows| && First(rows, i) && rows[i].text == k.text && k.text in m && m[k.text] == k
    ensures exists g | g in (Folded(rows, m) + more) + other || g in other + (Folded(rows, m) + more) ::
              g.text == k.text && (k.pin ==> g.pin) && g.lastUsed >= k.lastUsed
  {
    var g := Folded(rows, m)[i];
    assert g in Folded(rows, m);
  }

  /** What a considered row carries is never worth less in the destination. */
  lemma RowIsCarried(s: Stores, rejects: string -> bool, k: Rows.Item)
    requires k in Considered(s, rejects)
    ensures exists g | g in Outcome(s, rejects).active + Outcome(s, rejects).archive ::
              g.text == k.row.text && (k.row.pin ==> g.pin) && g.lastUsed >= k.row.lastUsed
  {
    var ks, end := Considered(s, rejects), Outcome(s, rejects);
    var t, there := k.row.text, Texts(s.dstActive) + Texts(s.dstArchive);
    ConsideredOnce(s, rejects);
    ByTextFinds(ks);
    MovesAre(ks, k.hot, there);
    hide Considered, Moves, ByText, OneEach;
    if t in Texts(s.dstActive) {
      var i := FirstOf(s.dstActive, t);
      CarriedBy(s.dstActive, ByText(ks), i, k.row, Moves(ks, true, there), end.archive);
    } else if t in Texts(s.dstArchive) {
      var i := FirstOf(s.dstArchive, t);
      CarriedBy(s.dstArchive, ByText(ks) - Texts(s.dstActive), i, k.row, Moves(ks, false, there), end.active);
    } else {
      assert k.row in Moves(ks, k.hot, there);
    }
  }

  lemma {:induction false} FirstOf(rows: seq<Fact>, t: string) returns (i: nat)
    requires t in Texts(rows)
    ensures i < |rows| && rows[i].text == t && First(rows, i)
  {
    var init := rows[..|rows| - 1];
    if t in Texts(init) {
      i := FirstOf(init, t);
    } else {
      i := |rows| - 1;
      assert forall j | 0 <= j < |init| :: init[j].text in Texts(init);
      assert rows[i].text == t;
    }
  }
}
