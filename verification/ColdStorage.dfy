/**
  The active store and its cold sidecar, in compactor/facts.py, backfill.py and commands.py. Each
  operation runs under the conversation's lock and writes whole files; a write may land, raise, or
  be the last thing the process does. `history` holds what was on disk after every write.
  */
module ColdStorage {
  import opened FactRows
  import Budget = FactBudget
  import Rows = Duplicates

  datatype Disk = Disk(active: seq<Fact>, archive: seq<Fact>)

  function Memory(d: Disk): set<string> { Texts(d.active) + Texts(d.archive) }

  datatype Fate = Lands | Raises | KilledBefore | KilledAfter

  predicate Written(fate: Fate) { fate == Lands || fate == KilledAfter }

  /** How an operation stands after a write: running, unwound by an exception, or dead. */
  datatype Outcome = Done | Raised | Dead

  // ---------------------------------------------------------------------------------
  // Lists of rows
  // ---------------------------------------------------------------------------------

  function Where(rows: seq<Fact>, p: Fact -> bool): (r: seq<Fact>)
    ensures forall f :: f in r <==> f in rows && p(f)
  {
    if rows == [] then [] else
      assert rows == rows[..|rows| - 1] + [rows[|rows| - 1]];
      Where(rows[..|rows| - 1], p) + if p(rows[|rows| - 1]) then [rows[|rows| - 1]] else []
  }

  lemma {:induction false} WhereFilters(rows: seq<Fact>, p: Fact -> bool)
    ensures Filters(Where(rows, p), rows, p)
  {
    hide Filters;
    if rows == [] {
      FiltersNothing(p);
    } else {
      var init, last := rows[..|rows| - 1], rows[|rows| - 1];
      WhereFilters(init, p);
      FiltersSnoc(Where(init, p), init, p, last);
      assert Where(init, p) + [] == Where(init, p);
      assert rows == init + [last];
    }
  }

  lemma {:induction false} WhereAll(rows: seq<Fact>, p: Fact -> bool)
    requires forall f | f in rows :: p(f)
    ensures Where(rows, p) == rows
  {
    if rows != [] {
      var init, last := rows[..|rows| - 1], rows[|rows| - 1];
      assert rows == init + [last];
      WhereAll(init, p);
    }
  }

  lemma SplitKeepsTexts(rows: seq<Fact>, a: seq<Fact>, b: seq<Fact>)
    requires forall f | f in rows :: f in a || f in b
    ensures Texts(rows) <= Texts(a) + Texts(b)
  {}

  function Stale(cutoff: int): Fact -> bool { (f: Fact) => !f.pin && f.lastUsed < cutoff }

  function Recent(cutoff: int): Fact -> bool { (f: Fact) => f.pin || f.lastUsed >= cutoff }

  lemma StaleOrRecent(rows: seq<Fact>, cutoff: int)
    ensures var stale, recent := Where(rows, Stale(cutoff)), Where(rows, Recent(cutoff));
            && (forall f :: f in stale <==> f in rows && !f.pin && f.lastUsed < cutoff)
            && (forall f :: f in recent <==> f in rows && (f.pin || f.lastUsed >= cutoff))
            && (stale == [] ==> recent == rows)
  {
    if Where(rows, Stale(cutoff)) == [] { WhereAll(rows, Recent(cutoff)); }
  }

  function TextNotIn(entries: seq<Fact>): Fact -> bool { (f: Fact) => f.text !in Texts(entries) }

  function Archived(existing: seq<Fact>, entries: seq<Fact>): (r: seq<Fact>)
    ensures forall f | f in entries :: f in r
    ensures forall f | f in existing :: f in r || exists e :: e in entries && e.text == f.text
    ensures Texts(r) == Texts(existing) + Texts(entries)
  {
    var rest := Where(existing, TextNotIn(entries));
    TextsConcat(rest, entries);
    assert forall f | f in existing :: f in rest || f.text in Texts(entries);
    rest + entries
  }

  lemma NothingToArchive(existing: seq<Fact>)
    ensures Archived(existing, []) == existing
  {
    WhereAll(existing, TextNotIn([]));
  }

  /** An archived row makes way for an entry of its text; the others keep their places ahead of the entries. */
  lemma ArchivedReplaces(existing: seq<Fact>, entries: seq<Fact>)
    ensures var r := Archived(existing, entries);
            && |entries| <= |r| && r[|r| - |entries|..] == entries
            && Filters(r[..|r| - |entries|], existing, TextNotIn(entries))
  {
    WhereFilters(existing, TextNotIn(entries));
    var rest := Where(existing, TextNotIn(entries));
    assert (rest + entries)[..|rest|] == rest;
  }

  /** The sidecar with the stale rows in it. */
  function Swept(existing: seq<Fact>, rows: seq<Fact>, cutoff: int): seq<Fact> {
    Archived(existing, Where(rows, Stale(cutoff)))
  }

  lemma SweptIs(existing: seq<Fact>, rows: seq<Fact>, cutoff: int)
    ensures var stale := Where(rows, Stale(cutoff));
            Swept(existing, rows, cutoff) == if stale == [] then existing else Archived(existing, stale)
  {
    NothingToArchive(existing);
  }

  function SweptDisk(d: Disk, now: int, olderThanDays: int, cold: Fate, hot: Fate): Disk {
    var cutoff := now - olderThanDays * 86400;
    if olderThanDays < 0 then d else
      Disk(if cold == Lands && Written(hot) then Where(d.active, Recent(cutoff)) else d.active,
           if Written(cold) then Swept(d.archive, d.active, cutoff) else d.archive)
  }

  /** The stored rows as objects. */
  function Load(rows: seq<Fact>): (r: seq<Budget.Held>)
    ensures |r| == |rows| && Budget.Distinct(r)
  {
    seq(|rows|, i requires 0 <= i < |rows| => Budget.Held(i, rows[i]))
  }

  function Plain(held: seq<Budget.Held>): (r: seq<Fact>)
    ensures |r| == |held|
    ensures forall i | 0 <= i < |held| :: r[i] == held[i].fact
  {
    seq(|held|, i requires 0 <= i < |held| => held[i].fact)
  }

  lemma PlainOf(rows: seq<Fact>, kept: seq<Budget.Held>, evicted: seq<Budget.Held>)
    requires multiset(kept) + multiset(evicted) == multiset(Load(rows))
    ensures forall f | f in rows :: f in Plain(kept) || f in Plain(evicted)
    ensures forall f | f in Plain(kept) :: f in rows
    ensures forall f | f in Plain(evicted) :: f in rows
  {
    var all := Load(rows);
    forall f | f in rows ensures f in Plain(kept) || f in Plain(evicted) {
      var i :| 0 <= i < |rows| && rows[i] == f;
      assert all[i] in multiset(all);
      assert all[i] in multiset(kept) || all[i] in multiset(evicted);
      if all[i] in kept {
        var j :| 0 <= j < |kept| && kept[j] == all[i];
        assert Plain(kept)[j] == f;
      } else {
        var j :| 0 <= j < |evicted| && evicted[j] == all[i];
        assert Plain(evicted)[j] == f;
      }
    }
    forall x | x in kept ensures x.fact in rows { assert x in multiset(kept) && x in multiset(all); }
    forall x | x in evicted ensures x.fact in rows { assert x in multiset(evicted) && x in multiset(all); }
  }

  /** The sidecar after the rows that exceed the budget have been moved to it. */
  function Evicting(existing: seq<Fact>, rows: seq<Fact>, maxTokens: int): seq<Fact> {
    var evicted := Plain(Budget.Overflow(Load(rows), maxTokens));
    if evicted == [] then existing else Archived(existing, evicted)
  }

  /** Whether the process dies over the archiving, before it comes to the active file. */
  predicate DiesCold(rows: seq<Fact>, maxTokens: int, cold: Fate) {
    Budget.Overflow(Load(rows), maxTokens) != [] && (cold == KilledBefore || cold == KilledAfter)
  }

  /** What is to stay active: the rows within the budget, or all of them when the others could not be archived. */
  function Staying(rows: seq<Fact>, maxTokens: int, cold: Fate): seq<Fact> {
    if Budget.Overflow(Load(rows), maxTokens) != [] && cold == Raises then rows
    else Plain(Budget.Working(Load(rows), maxTokens))
  }

  /** Both files once the active rows have given way to these, pruned to the budget. */
  function Replaced(d: Disk, rows: seq<Fact>, maxTokens: int, cold: Fate, hot: Fate): Disk {
    Disk(if Written(hot) && !DiesCold(rows, maxTokens, cold) then Staying(rows, maxTokens, cold) else d.active,
         if Written(cold) then Evicting(d.archive, rows, maxTokens) else d.archive)
  }

  lemma NothingFits(maxTokens: int, cold: Fate)
    ensures Staying([], maxTokens, cold) == [] && !DiesCold([], maxTokens, cold)
  {}

  /** A touch only ever moves `last_used` forward. */
  function Touched(rows: seq<Fact>, touchedAt: map<string, int>): (r: seq<Fact>)
    ensures |r| == |rows| && Texts(r) == Texts(rows)
    ensures forall i | 0 <= i < |rows| ::
              && r[i].text == rows[i].text && r[i].addedTurn == rows[i].addedTurn && r[i].pin == rows[i].pin
              && r[i].lastUsed >= rows[i].lastUsed
              && (rows[i].text in touchedAt ==> r[i].lastUsed >= touchedAt[rows[i].text])
              && (r[i].lastUsed != rows[i].lastUsed ==> rows[i].text in touchedAt && r[i].lastUsed == touchedAt[rows[i].text])
  {
    var r := seq(|rows|, i requires 0 <= i < |rows| =>
      if rows[i].text in touchedAt && touchedAt[rows[i].text] > rows[i].lastUsed
      then rows[i].(lastUsed := touchedAt[rows[i].text]) else rows[i]);
    assert forall i | 0 <= i < |rows| :: r[i].text == rows[i].text;
    r
  }

  function Asked(all: bool, matches: string -> bool, chosen: bool): Fact -> bool {
    (f: Fact) => (all || matches(f.text)) == chosen
  }

  /** The archived rows that a restore chooses, or leaves. */
  function Matching(rows: seq<Fact>, all: bool, matches: string -> bool, chosen: bool): seq<Fact> {
    Where(rows, Asked(all, matches, chosen))
  }

  /** The same rows in the same order, used just now. */
  function Refreshed(rows: seq<Fact>, now: int): (r: seq<Fact>)
    ensures Texts(r) == Texts(rows) && |r| == |rows|
    ensures forall i | 0 <= i < |rows| ::
              && r[i].text == rows[i].text && r[i].addedTurn == rows[i].addedTurn && r[i].pin == rows[i].pin
              && r[i].lastUsed == now
  {
    var r := seq(|rows|, i requires 0 <= i < |rows| => rows[i].(lastUsed := now));
    assert forall i | 0 <= i < |rows| :: r[i].text == rows[i].text;
    r
  }

  ghost predicate Renewed(f: Fact, g: Fact, now: int) {
    g.text == f.text && g.addedTurn == f.addedTurn && g.pin == f.pin && g.lastUsed == now
  }

  ghost predicate RenewedOf(rows: seq<Fact>, archive: seq<Fact>, at: seq<nat>, now: int) {
    |rows| == |at| && forall k | 0 <= k < |at| :: at[k] < |archive| && Renewed(archive[at[k]], rows[k], now)
  }

  /** Behind the active rows stands every archived row that was asked for, once and in its order: used just now,
      and with the text, the turn and the pin that it had. */
  ghost predicate Restores(was: Disk, active: seq<Fact>, all: bool, matches: string -> bool, now: int) {
    && was.active <= active
    && exists at: seq<nat> ::
         && RenewedOf(active[|was.active|..], was.archive, at, now)
         && (forall j, k | 0 <= j < k < |at| :: at[j] < at[k])
         && (forall i | 0 <= i < |was.archive| :: i in at <==> all || matches(was.archive[i].text))
  }

  lemma RestoredRows(was: Disk, all: bool, matches: string -> bool, now: int)
    ensures Restores(was, was.active + Refreshed(Matching(was.archive, all, matches, true), now), all, matches, now)
  {
    hide RenewedOf, Where, Refreshed, Filters;
    var chosen := Matching(was.archive, all, matches, true);
    WhereFilters(was.archive, Asked(all, matches, true));
    var at := FilteredAt(chosen, was.archive, Asked(all, matches, true));
    RenewedWhere(chosen, was.archive, at, now);
    var rows := Refreshed(chosen, now);
    assert (was.active + rows)[|was.active|..] == rows;
    forall i | 0 <= i < |was.archive| ensures i in at <==> all || matches(was.archive[i].text) {
      assert i in at <==> Asked(all, matches, true)(was.archive[i]);
    }
  }

  lemma FilteredAt(r: seq<Fact>, rows: seq<Fact>, p: Fact -> bool) returns (at: seq<nat>)
    requires Filters(r, rows, p)
    ensures StandsAt(r, rows, at) && Chooses(at, rows, p)
  {
    at :| StandsAt(r, rows, at) && Chooses(at, rows, p);
  }

  lemma RenewedWhere(chosen: seq<Fact>, archive: seq<Fact>, at: seq<nat>, now: int)
    requires StandsAt(chosen, archive, at)
    ensures RenewedOf(Refreshed(chosen, now), archive, at, now)
  {}

  function RestoredDisk(d: Disk, all: bool, matches: string -> bool, now: int, hot: Fate, cold: Fate): Disk {
    Disk(if Written(hot) then d.active + Refreshed(Matching(d.archive, all, matches, true), now) else d.active,
         if hot == Lands && Written(cold) then Matching(d.archive, all, matches, false) else d.archive)
  }

  lemma MatchingSplits(rows: seq<Fact>, all: bool, matches: string -> bool)
    ensures var chosen, left := Matching(rows, all, matches, true), Matching(rows, all, matches, false);
            && (forall f | f in rows :: (f in chosen <==> all || matches(f.text)) && (f in left <==> f !in chosen))
            && Texts(rows) == Texts(chosen) + Texts(left)
  {}

  // ---------------------------------------------------------------------------------
  // The backfill's merge
  // ---------------------------------------------------------------------------------

  /** The rows whose text is new, first occurrences only. */
  function Unseen(seen: set<string>, rows: seq<Fact>): seq<Fact>
    decreases |rows|
  {
    if rows == [] then []
    else if rows[0].text in seen then Unseen(seen, rows[1..])
    else [rows[0]] + Unseen(seen + {rows[0].text}, rows[1..])
  }

  method MergeBackfilled(existing: seq<Fact>, accumulated: seq<Fact>) returns (merged: seq<Fact>)
    ensures merged == existing + Unseen(Texts(existing), accumulated)
  {
    var seen := Texts(existing);
    merged := existing;
    for k := 0 to |accumulated|
      invariant merged + Unseen(seen, accumulated[k..]) == existing + Unseen(Texts(existing), accumulated)
    {
      var f := accumulated[k];
      assert accumulated[k..][1..] == accumulated[k + 1..];
      if f.text in seen { continue; }
      assert merged + ([f] + Unseen(seen + {f.text}, accumulated[k + 1..]))
          == (merged + [f]) + Unseen(seen + {f.text}, accumulated[k + 1..]);
      seen := seen + {f.text};
      merged := merged + [f];
    }
  }

  /** The merge adds exactly the texts the store lacks, each once. */
  lemma {:induction false} UnseenIsTheDifference(seen: set<string>, rows: seq<Fact>)
    ensures Texts(Unseen(seen, rows)) == Texts(rows) - seen
    ensures var r := Unseen(seen, rows); forall i, j | 0 <= i < j < |r| :: r[i].text != r[j].text
    ensures forall f | f in Unseen(seen, rows) :: f in rows
    decreases |rows|
  {
    if rows != [] {
      var t, rest := rows[0].text, rows[1..];
      assert rows == [rows[0]] + rest;
      TextsConcat([rows[0]], rest);
      if t in seen {
        UnseenIsTheDifference(seen, rest);
      } else {
        UnseenIsTheDifference(seen + {t}, rest);
        TextsConcat([rows[0]], Unseen(seen + {t}, rest));
        var tail := Unseen(seen + {t}, rest);
        assert forall j | 0 <= j < |tail| :: tail[j].text in Texts(tail);
      }
    }
  }

  // ---------------------------------------------------------------------------------
  // /tidy
  // ---------------------------------------------------------------------------------

  function AllHot(rows: seq<Fact>): (r: seq<Rows.Item>)
    ensures |r| == |rows| && forall i | 0 <= i < |rows| :: r[i] == Rows.Item(true, rows[i])
  {
    seq(|rows|, i requires 0 <= i < |rows| => Rows.Item(true, rows[i]))
  }

  /** The rows whose position is, or is not, among those given. */
  function Select(rows: seq<Fact>, positions: seq<nat>, chosen: bool): (r: seq<Fact>)
    ensures |r| <= |rows|
  {
    if rows == [] then [] else
      var init, last := rows[..|rows| - 1], rows[|rows| - 1];
      Select(init, positions, chosen) + if (|init| in positions) == chosen then [last] else []
  }

  lemma {:induction false} SelectStands(rows: seq<Fact>, positions: seq<nat>, chosen: bool) returns (at: seq<nat>)
    ensures StandsAt(Select(rows, positions, chosen), rows, at)
    ensures forall i | 0 <= i < |rows| :: i in at <==> (i in positions) == chosen
  {
    if rows == [] {
      at := [];
    } else {
      var init, last := rows[..|rows| - 1], rows[|rows| - 1];
      at := SelectStands(init, positions, chosen);
      StandsSnoc(Select(init, positions, chosen), init, at, last);
      assert rows == init + [last];
      assert Select(init, positions, chosen) + [] == Select(init, positions, chosen);
      if (|init| in positions) == chosen { at := at + [|init|]; }
    }
  }

  lemma {:induction false} Selected(rows: seq<Fact>, positions: seq<nat>, chosen: bool)
    ensures forall i | 0 <= i < |rows| && (i in positions) == chosen :: rows[i] in Select(rows, positions, chosen)
  {
    if rows != [] {
      var init := rows[..|rows| - 1];
      Selected(init, positions, chosen);
      assert forall i | 0 <= i < |init| :: init[i] == rows[i];
    }
  }

  lemma {:induction false} SelectSplits(rows: seq<Fact>, positions: seq<nat>)
    ensures var kept, gone := Select(rows, positions, true), Select(rows, positions, false);
            |kept| + |gone| == |rows| && forall f | f in rows :: f in kept || f in gone
  {
    if rows != [] { SelectSplits(rows[..|rows| - 1], positions); }
    Selected(rows, positions, true);
    Selected(rows, positions, false);
  }

  /** `/tidy` may take out up to half of the rows, and up to five of a small store. */
  function Allowance(total: nat): nat { if total / 2 > 5 then total / 2 else 5 }

  /** No copy of a text is worth more to eviction than the one that stays. */
  ghost predicate KeepsBest(was: seq<Fact>, now: seq<Fact>, rejects: string -> bool) {
    forall f | f in was && !rejects(f.text) ::
      exists g | g in now ::
        && g.text == f.text
        && Budget.EvictFirst(Budget.Held(0, f), Budget.Held(0, g))
  }

  function Tidied(rows: seq<Fact>, rejects: string -> bool): seq<Fact> {
    Select(rows, Rows.Keepers(AllHot(rows), rejects, |rows|), true)
  }

  /** The rows that a tidy takes out. */
  function Removed(rows: seq<Fact>, rejects: string -> bool): seq<Fact> {
    Select(rows, Rows.Keepers(AllHot(rows), rejects, |rows|), false)
  }

  /** What stays and what goes is the store, each row once and in its order, parted by whether its copy is the keeper. */
  lemma TidySplits(rows: seq<Fact>, rejects: string -> bool) returns (kept: seq<nat>, gone: seq<nat>)
    ensures StandsAt(Tidied(rows, rejects), rows, kept) && StandsAt(Removed(rows, rejects), rows, gone)
    ensures forall i | 0 <= i < |rows| :: i in kept <==> Rows.Keeper(AllHot(rows), rejects, i)
    ensures forall i | 0 <= i < |rows| :: i in gone <==> !Rows.Keeper(AllHot(rows), rejects, i)
  {
    var positions := Rows.Keepers(AllHot(rows), rejects, |rows|);
    kept := SelectStands(rows, positions, true);
    gone := SelectStands(rows, positions, false);
    assert forall i | 0 <= i < |rows| :: i in positions <==> Rows.Keeper(AllHot(rows), rejects, i);
  }

  lemma {:induction false} SelectedFrom(rows: seq<Fact>, positions: seq<nat>, f: Fact) returns (i: nat)
    requires f in Select(rows, positions, true)
    ensures i < |rows| && i in positions && rows[i] == f
  {
    var init, last := rows[..|rows| - 1], rows[|rows| - 1];
    if |init| in positions && last == f {
      i := |init|;
    } else {
      i := SelectedFrom(init, positions, f);
    }
  }

  ghost predicate EachTextOnce(rows: seq<Fact>) { forall a, b | 0 <= a < b < |rows| :: rows[a].text != rows[b].text }

  lemma OnceSnoc(rows: seq<Fact>, f: Fact)
    requires EachTextOnce(rows) && forall g | g in rows :: g.text != f.text
    ensures EachTextOnce(rows + [f])
  {
    var r := rows + [f];
    forall a, b | 0 <= a < b < |r| ensures r[a].text != r[b].text {
      assert r[a] == rows[a];
      assert b < |rows| ==> r[b] == rows[b];
    }
  }

  ghost predicate TextsDiffer(rows: seq<Fact>, positions: seq<nat>) {
    forall i, j | 0 <= i < j < |rows| && i in positions && j in positions :: rows[i].text != rows[j].text
  }

  lemma DifferBefore(rows: seq<Fact>, positions: seq<nat>)
    requires rows != [] && TextsDiffer(rows, positions)
    ensures TextsDiffer(rows[..|rows| - 1], positions)
    ensures |rows| - 1 in positions ==> forall f | f in Select(rows[..|rows| - 1], positions, true) ::
              f.text != rows[|rows| - 1].text
  {
    hide Select;
    var init, last := rows[..|rows| - 1], rows[|rows| - 1];
    forall i, j | 0 <= i < j < |init| && i in positions && j in positions ensures init[i].text != init[j].text {
      assert init[i] == rows[i] && init[j] == rows[j];
    }
    if |init| in positions {
      forall f | f in Select(init, positions, true) ensures f.text != last.text {
        var i := SelectedFrom(init, positions, f);
        assert rows[i] == f;
      }
    }
  }

  lemma {:induction false} SelectedOnce(rows: seq<Fact>, positions: seq<nat>)
    requires TextsDiffer(rows, positions)
    ensures EachTextOnce(Select(rows, positions, true))
  {
    if rows != [] {
      DifferBefore(rows, positions);
      hide TextsDiffer;
      SelectedOnce(rows[..|rows| - 1], positions);
      if |rows| - 1 in positions {
        OnceSnoc(Select(rows[..|rows| - 1], positions, true), rows[|rows| - 1]);
      }
    }
  }

  /** A tidied store holds nothing that is rejected and each text once. */
  lemma TidiedIsTidy(rows: seq<Fact>, rejects: string -> bool)
    ensures var r := Tidied(rows, rejects);
            EachTextOnce(r) && forall f | f in r :: f in rows && !rejects(f.text)
  {
    var items := AllHot(rows);
    var kept := Rows.Keepers(items, rejects, |rows|);
    forall i, j | 0 <= i < j < |rows| && i in kept && j in kept ensures rows[i].text != rows[j].text {
      if rows[i].text == rows[j].text {
        var k := Rows.OneKeeperEach(items, rejects, i);
        assert Rows.SameText(items, i, i) && Rows.SameText(items, i, j);
      }
    }
    assert TextsDiffer(rows, kept);
    SelectedOnce(rows, kept);
    forall f | f in Tidied(rows, rejects) ensures f in rows && !rejects(f.text) {
      var i := SelectedFrom(rows, kept, f);
      var a :| 0 <= a < |kept| && kept[a] == i;
    }
  }

  /** The refusals of `/tidy apply`: nothing to do, a code out of date, too large a share, no snapshot. */
  predicate Applies(rows: seq<Fact>, rejects: string -> bool, confirmed: bool, snapshot: bool) {
    var gone := |Removed(rows, rejects)|;
    gone > 0 && confirmed && snapshot && (gone <= 5 || 2 * gone <= |rows|)
  }

  function TidiedDisk(d: Disk, rejects: string -> bool, cold: Fate, hot: Fate): Disk {
    Disk(if cold == Lands && Written(hot) then Tidied(d.active, rejects) else d.active,
         if Written(cold) then Archived(d.archive, Removed(d.active, rejects)) else d.archive)
  }

  lemma SurvivorsKeepBest(rows: seq<Fact>, rejects: string -> bool, kept: seq<nat>)
    requires kept == Rows.Keepers(AllHot(rows), rejects, |rows|)
    ensures KeepsBest(rows, Select(rows, kept, true), rejects)
  {
    var items, now := AllHot(rows), Select(rows, kept, true);
    Selected(rows, kept, true);
    forall f | f in rows && !rejects(f.text)
      ensures exists g | g in now :: g.text == f.text && Budget.EvictFirst(Budget.Held(0, f), Budget.Held(0, g))
    {
      var i :| 0 <= i < |rows| && rows[i] == f;
      var k := Rows.OneKeeperEach(items, rejects, i);
      assert Rows.SameText(items, k, i) && Rows.Outranks(items, k, i);
      assert k in kept && rows[k] in now;
    }
  }

  // ---------------------------------------------------------------------------------
  // The store
  // ---------------------------------------------------------------------------------

  ghost predicate Growing(history: seq<Disk>) {
    forall i, j | 0 <= i < j < |history| :: Memory(history[i]) <= Memory(history[j])
  }

  lemma StillGrowing(history: seq<Disk>, next: Disk)
    requires history != [] && Growing(history) && Memory(history[|history| - 1]) <= Memory(next)
    ensures Growing(history + [next])
  {
    hide Memory;
    var more := history + [next];
    forall i, j | 0 <= i < j < |more| ensures Memory(more[i]) <= Memory(more[j]) {
      assert more[i] == history[i];
      assert j < |history| ==> more[j] == history[j];
      assert i < |history| - 1 ==> Memory(history[i]) <= Memory(history[|history| - 1]);
    }
  }

  class Store {
    var active: seq<Fact>
    var archive: seq<Fact>
    ghost var history: seq<Disk>

    /** No write ever lost a text: of any two moments, the later one holds all the earlier one held. */
    ghost predicate NothingLost()
      reads this
    {
      history != [] && history[|history| - 1] == Disk(active, archive) && Growing(history)
    }

    constructor ()
      ensures NothingLost() && active == [] && archive == [] && history == [Disk([], [])]
    {
      active, archive, history := [], [], [Disk([], [])];
    }

    method SaveActive(rows: seq<Fact>, fate: Fate) returns (outcome: Outcome)
      requires NothingLost() && Memory(Disk(active, archive)) <= Memory(Disk(rows, archive))
      modifies this`active, this`history
      ensures NothingLost() && old(history) <= history
      ensures active == if fate == Lands || fate == KilledAfter then rows else old(active)
      ensures outcome == if fate == Lands then Done else if fate == Raises then Raised else Dead
    {
      if fate == Lands || fate == KilledAfter {
        StillGrowing(history, Disk(rows, archive));
        active := rows;
        history := history + [Disk(active, archive)];
      }
      outcome := if fate == Lands then Done else if fate == Raises then Raised else Dead;
    }

    method SaveArchive(rows: seq<Fact>, fate: Fate) returns (outcome: Outcome)
      requires NothingLost() && Memory(Disk(active, archive)) <= Memory(Disk(active, rows))
      modifies this`archive, this`history
      ensures NothingLost() && old(history) <= history
      ensures archive == if fate == Lands || fate == KilledAfter then rows else old(archive)
      ensures outcome == if fate == Lands then Done else if fate == Raises then Raised else Dead
    {
      if fate == Lands || fate == KilledAfter {
        StillGrowing(history, Disk(active, rows));
        archive := rows;
        history := history + [Disk(active, archive)];
      }
      outcome := if fate == Lands then Done else if fate == Raises then Raised else Dead;
    }

    method ArchiveFacts(entries: seq<Fact>, fate: Fate) returns (outcome: Outcome)
      requires NothingLost()
      modifies this`archive, this`history
      ensures NothingLost() && old(history) <= history
      ensures archive == if entries != [] && Written(fate)
                         then Archived(old(archive), entries) else old(archive)
      ensures outcome == if entries == [] || fate == Lands then Done else if fate == Raises then Raised else Dead
    {
      if entries == [] { return Done; }
      outcome := SaveArchive(Archived(archive, entries), fate);
    }

    /** Budget eviction: a row leaves the list only once it is in the archive. */
    method PruneFacts(rows: seq<Fact>, maxTokens: int, fate: Fate) returns (kept: seq<Fact>, outcome: Outcome)
      requires NothingLost()
      modifies this`archive, this`history
      ensures NothingLost() && old(history) <= history
      ensures outcome != Raised
      ensures outcome == Done ==> forall f | f in rows :: f in kept || f in archive
      ensures forall f | f in kept :: f in rows
      ensures forall f | f in old(archive) :: f in archive || f.text in Texts(rows)
      ensures archive == if Written(fate) then Evicting(old(archive), rows, maxTokens) else old(archive)
      ensures outcome == if DiesCold(rows, maxTokens, fate) then Dead else Done
      ensures kept == Staying(rows, maxTokens, fate)
    {
      hide Budget.Working, Budget.Overflow, Archived, Texts, Plain, Load;
      var working, evicted := Budget.LruSplit(Load(rows), maxTokens);
      Budget.SplitPartitions(Load(rows), maxTokens);
      PlainOf(rows, working, evicted);
      kept := Plain(working);
      if evicted == [] { return kept, Done; }
      outcome := ArchiveFacts(Plain(evicted), fate);
      if outcome == Raised { return rows, Done; }
    }

    /** The tail of an exchange: touches of rows still on disk, new rows, and the budget. */
    method Tail(touchedAt: map<string, int>, entries: seq<Fact>, maxTokens: int, cold: Fate, hot: Fate)
      returns (outcome: Outcome)
      requires NothingLost()
      modifies this
      ensures NothingLost() && old(history) <= history
      ensures outcome == Done ==> Texts(entries) <= Memory(Disk(active, archive))
      ensures cold == Lands && hot == Lands ==> outcome == Done
      ensures forall f | f in old(active) :: Remembered(f, active, archive)
      ensures Disk(active, archive) ==
              Replaced(old(Disk(active, archive)), Touched(old(active), touchedAt) + entries, maxTokens, cold, hot)
    {
      NothingFits(maxTokens, cold);
      hide Evicting, Budget.Working, Budget.Overflow, Plain, Load, Touched, Staying, Remembered;
      var touched := Touched(active, touchedAt);
      var combined := touched + entries;
      var kept;
      kept, outcome := PruneFacts(combined, maxTokens, cold);
      if outcome == Done && combined != [] {
        TextsConcat(touched, entries);
        outcome := SaveActive(kept, hot);
      }
      RowsRemembered(old(active), touchedAt, entries, active, archive);
    }

    /** The end of a backfill, whose rows were gathered long before, from an older store. */
    method BackfillWrite(accumulated: seq<Fact>, maxTokens: int, cold: Fate, hot: Fate) returns (outcome: Outcome)
      requires NothingLost()
      modifies this
      ensures NothingLost() && old(history) <= history
      ensures outcome == Done ==> Texts(accumulated) <= Memory(Disk(active, archive))
      ensures cold == Lands && hot == Lands ==> outcome == Done
      ensures forall f | f in old(active) :: f in active || f in archive
      ensures forall f | f in active :: f in old(active) || (f in accumulated && f.text !in Texts(old(active)))
      ensures Disk(active, archive) ==
              Replaced(old(Disk(active, archive)), old(active) + Unseen(Texts(old(active)), accumulated), maxTokens, cold, hot)
    {
      NothingFits(maxTokens, cold);
      hide Evicting, Budget.Working, Budget.Overflow, Plain, Load, Unseen, Staying;
      var merged := MergeBackfilled(active, accumulated);
      UnseenIsTheDifference(Texts(active), accumulated);
      TextsConcat(active, Unseen(Texts(active), accumulated));
      var kept;
      kept, outcome := PruneFacts(merged, maxTokens, cold);
      if outcome == Done && merged != [] {
        outcome := SaveActive(kept, hot);
      }
    }

    method ArchiveStale(now: int, olderThanDays: int, cold: Fate, hot: Fate) returns (outcome: Outcome)
      requires NothingLost()
      modifies this
      ensures NothingLost() && old(history) <= history
      ensures cold == Lands && hot == Lands ==> outcome == Done
      ensures forall f | f in old(active) :: f in active || (f in archive && !f.pin)
      ensures outcome == Done && olderThanDays >= 0 ==>
                forall f | f in active :: f.pin || f.lastUsed >= now - olderThanDays * 86400
      ensures forall f | f in old(active) && (f.pin || f.lastUsed >= now - olderThanDays * 86400) :: f in active
      ensures olderThanDays >= 0 && cold == Lands && Written(hot) ==>
                Filters(active, old(active), Recent(now - olderThanDays * 86400))
      ensures !(olderThanDays >= 0 && cold == Lands && Written(hot)) ==> active == old(active)
      ensures archive == if olderThanDays >= 0 && Written(cold)
                         then Swept(old(archive), old(active), now - olderThanDays * 86400) else old(archive)
      ensures Disk(active, archive) == SweptDisk(old(Disk(active, archive)), now, olderThanDays, cold, hot)
    {
      hide Archived, Filters, Where, Stale, Recent, Texts, Swept;
      if olderThanDays < 0 { return Done; }
      var cutoff := now - olderThanDays * 86400;
      var stale := Where(active, Stale(cutoff));
      WhereFilters(active, Recent(cutoff));
      StaleOrRecent(active, cutoff);
      SweptIs(archive, active, cutoff);
      ghost var swept := Swept(archive, active, cutoff);
      if stale == [] {
        assert archive == swept;
        return Done;
      }
      var recent := Where(active, Recent(cutoff));
      outcome := ArchiveFacts(stale, cold);
      assert archive == if Written(cold) then swept else old(archive);
      if outcome == Done {
        SplitKeepsTexts(old(active), recent, archive);
        outcome := SaveActive(recent, hot);
      }
    }

    /** A restored row is written hot before it leaves the sidecar. */
    method RestoreFromArchive(all: bool, matches: string -> bool, now: int, hot: Fate, cold: Fate)
      returns (outcome: Outcome)
      requires NothingLost()
      modifies this
      ensures NothingLost() && old(history) <= history
      ensures cold == Lands && hot == Lands ==> outcome == Done
      ensures if Written(hot)
              then Restores(old(Disk(active, archive)), active, all, matches, now)
              else active == old(active)
      ensures if hot == Lands && Written(cold)
              then Filters(archive, old(archive), Asked(all, matches, false))
              else archive == old(archive)
      ensures Disk(active, archive) == RestoredDisk(old(Disk(active, archive)), all, matches, now, hot, cold)
    {
      hide Refreshed, Texts, Where, Restores, Filters, Asked;
      var chosen := Matching(archive, all, matches, true);
      RestoredRows(Disk(active, archive), all, matches, now);
      WhereFilters(archive, Asked(all, matches, false));
      MatchingSplits(archive, all, matches);
      if chosen == [] {
        assert forall f | f in archive :: Asked(all, matches, false)(f);
        WhereAll(archive, Asked(all, matches, false));
        assert active + Refreshed(chosen, now) == active;
        return Done;
      }
      TextsConcat(active, Refreshed(chosen, now));
      outcome := SaveActive(active + Refreshed(chosen, now), hot);
      if outcome == Done {
        outcome := SaveArchive(Matching(archive, all, matches, false), cold);
      }
    }

    /** `/tidy apply`: `confirmed` says that the removal set is the one the dry run showed. */
    method TidyApply(rejects: string -> bool, confirmed: bool, snapshot: bool, cold: Fate, hot: Fate)
      returns (outcome: Outcome)
      requires NothingLost()
      modifies this
      ensures NothingLost() && old(history) <= history
      ensures cold == Lands && hot == Lands ==> outcome == Done
      ensures forall f | f in old(active) :: f in active || f in archive
      ensures KeepsBest(old(active), active, rejects)
      ensures Disk(active, archive) ==
              if Applies(old(active), rejects, confirmed, snapshot)
              then TidiedDisk(old(Disk(active, archive)), rejects, cold, hot) else old(Disk(active, archive))
    {
      hide KeepsBest, Select, AllHot, Rows.Keepers, Rows.Keeper;
      var kept := Rows.Survivors(AllHot(active), rejects);
      SelectSplits(active, kept);
      SurvivorsKeepBest(active, rejects, kept);
      AllKeepsBest(active, rejects);
      var keepRows, removeRows := Select(active, kept, true), Select(active, kept, false);
      if removeRows == [] || !confirmed || |removeRows| > Allowance(|active|) || !snapshot { return Done; }
      outcome := ArchiveFacts(removeRows, cold);
      if outcome == Done {
        SplitKeepsTexts(active, keepRows, archive);
        outcome := SaveActive(keepRows, hot);
      }
    }
  }

  /** One locked section, with the fate of each of its writes. */
  datatype Step =
    | Exchange(touchedAt: map<string, int>, entries: seq<Fact>, maxTokens: int, cold: Fate, hot: Fate)
    | Backfill(accumulated: seq<Fact>, maxTokens: int, cold: Fate, hot: Fate)
    | Sweep(now: int, olderThanDays: int, cold: Fate, hot: Fate)
    | Restore(all: bool, matches: string -> bool, now: int, cold: Fate, hot: Fate)
    | Tidy(rejects: string -> bool, confirmed: bool, snapshot: bool, cold: Fate, hot: Fate)

  /** The texts that a section is to add to the memory. */
  ghost function Brings(step: Step): set<string> {
    if step.Exchange? then Texts(step.entries) else if step.Backfill? then Texts(step.accumulated) else {}
  }

  /** What a section makes of the two files. */
  ghost function After(d: Disk, step: Step): Disk {
    match step
    case Exchange(touchedAt, entries, maxTokens, cold, hot) =>
      Replaced(d, Touched(d.active, touchedAt) + entries, maxTokens, cold, hot)
    case Backfill(accumulated, maxTokens, cold, hot) =>
      Replaced(d, d.active + Unseen(Texts(d.active), accumulated), maxTokens, cold, hot)
    case Sweep(now, olderThanDays, cold, hot) => SweptDisk(d, now, olderThanDays, cold, hot)
    case Restore(all, matches, now, cold, hot) => RestoredDisk(d, all, matches, now, hot, cold)
    case Tidy(rejects, confirmed, snapshot, cold, hot) =>
      if Applies(d.active, rejects, confirmed, snapshot) then TidiedDisk(d, rejects, cold, hot) else d
  }

  ghost function AfterAll(d: Disk, steps: seq<Step>): Disk {
    if steps == [] then d else After(AfterAll(d, steps[..|steps| - 1]), steps[|steps| - 1])
  }

  method RunStep(store: Store, step: Step) returns (outcome: Outcome)
    requires store.NothingLost()
    modifies store
    ensures store.NothingLost() && old(store.history) <= store.history
    ensures outcome == Done ==> Brings(step) <= Memory(Disk(store.active, store.archive))
    ensures step.cold == Lands && step.hot == Lands ==> outcome == Done
    ensures Disk(store.active, store.archive) == After(old(Disk(store.active, store.archive)), step)
  {
    hide Replaced, Touched, Unseen, SweptDisk, RestoredDisk, Applies, TidiedDisk;
    match step {
      case Exchange(touchedAt, entries, maxTokens, cold, hot) =>
        outcome := store.Tail(touchedAt, entries, maxTokens, cold, hot);
      case Backfill(accumulated, maxTokens, cold, hot) =>
        outcome := store.BackfillWrite(accumulated, maxTokens, cold, hot);
      case Sweep(now, olderThanDays, cold, hot) =>
        outcome := store.ArchiveStale(now, olderThanDays, cold, hot);
      case Restore(all, matches, now, cold, hot) =>
        outcome := store.RestoreFromArchive(all, matches, now, hot, cold);
      case Tidy(rejects, confirmed, snapshot, cold, hot) =>
        outcome := store.TidyApply(rejects, confirmed, snapshot, cold, hot);
    }
  }

  /** Any interleaving of locked sections, with a crash or a failed write anywhere, loses no text,
      and what a section that was done has brought is there at the end. */
  method Run(store: Store, steps: seq<Step>) returns (outcomes: seq<Outcome>)
    requires store.NothingLost()
    modifies store
    ensures store.NothingLost() && old(store.history) <= store.history
    ensures Memory(old(Disk(store.active, store.archive))) <= Memory(Disk(store.active, store.archive))
    ensures Disk(store.active, store.archive) == AfterAll(old(Disk(store.active, store.archive)), steps)
    ensures |outcomes| == |steps|
    ensures forall k | 0 <= k < |steps| ::
              && (steps[k].cold == Lands && steps[k].hot == Lands ==> outcomes[k] == Done)
              && (outcomes[k] == Done ==> Brings(steps[k]) <= Memory(Disk(store.active, store.archive)))
  {
    hide Brings, Memory, After;
    outcomes := [];
    for k := 0 to |steps|
      invariant store.NothingLost() && old(store.history) <= store.history
      invariant Disk(store.active, store.archive) == AfterAll(old(Disk(store.active, store.archive)), steps[..k])
      invariant |outcomes| == k
      invariant forall j | 0 <= j < k ::
                  && (steps[j].cold == Lands && steps[j].hot == Lands ==> outcomes[j] == Done)
                  && (outcomes[j] == Done ==> Brings(steps[j]) <= Memory(Disk(store.active, store.archive)))
    {
      ghost var earlier, before := store.history, Disk(store.active, store.archive);
      assert steps[..k + 1][..k] == steps[..k];
      var outcome := RunStep(store, steps[k]);
      outcomes := outcomes + [outcome];
      Grew(store.history, earlier, before, Disk(store.active, store.archive));
    }
    assert steps[..|steps|] == steps;
    Grew(store.history, old(store.history), old(Disk(store.active, store.archive)), Disk(store.active, store.archive));
  }

  lemma Grew(history: seq<Disk>, earlier: seq<Disk>, before: Disk, now: Disk)
    requires Growing(history) && earlier != [] && earlier <= history
    requires earlier[|earlier| - 1] == before && history[|history| - 1] == now
    ensures Memory(before) <= Memory(now)
  {
    assert history[|earlier| - 1] == before;
  }

  /** A row that survives with at most a later touch. */
  ghost predicate Remembered(f: Fact, active: seq<Fact>, archive: seq<Fact>) {
    exists g | g in active + archive :: g == f.(lastUsed := g.lastUsed) && g.lastUsed >= f.lastUsed
  }

  lemma RowsRemembered(was: seq<Fact>, touchedAt: map<string, int>, entries: seq<Fact>, active: seq<Fact>, archive: seq<Fact>)
    requires active == was || forall f | f in Touched(was, touchedAt) + entries :: f in active || f in archive
    ensures forall f | f in was :: Remembered(f, active, archive)
  {
    var combined := Touched(was, touchedAt) + entries;
    forall f | f in was ensures Remembered(f, active, archive) {
      var i :| 0 <= i < |was| && was[i] == f;
      assert combined[i] == Touched(was, touchedAt)[i];
      assert combined[i] in combined;
      assert active == was ==> f in active + archive;
      assert combined[i] in active || combined[i] in archive ==> combined[i] in active + archive;
    }
  }

  lemma AllKeepsBest(rows: seq<Fact>, rejects: string -> bool)
    ensures KeepsBest(rows, rows, rejects)
  {}
}
