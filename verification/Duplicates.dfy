/**
  compactor/commands.py: collapsing byte-identical rows. /tidy and /retire classify rows by the
  same three steps: reject by structure, group by text, keep the best copy of each group.
  */
module Duplicates {
  import opened FactRows

  /** A row and whether it is in the active layer. */
  datatype Item = Item(hot: bool, row: Fact)

  /** The key of the survivor: pinned, then most recently used, then newest, then first. */
  predicate Outlives(items: seq<Item>, i: nat, j: nat)
    requires i < |items| && j < |items|
  {
    var a, b := items[i].row, items[j].row;
    if a.pin != b.pin then a.pin
    else if a.lastUsed != b.lastUsed then a.lastUsed > b.lastUsed
    else if a.addedTurn != b.addedTurn then a.addedTurn > b.addedTurn
    else i <= j
  }

  /** The same, but an active copy comes before any archived one. */
  predicate Outranks(items: seq<Item>, i: nat, j: nat)
    requires i < |items| && j < |items|
  {
    if items[i].hot != items[j].hot then items[i].hot else Outlives(items, i, j)
  }

  predicate SameText(items: seq<Item>, i: nat, j: nat)
    requires i < |items| && j < |items|
  {
    items[i].row.text == items[j].row.text
  }

  /** The copy of its text that stays. */
  predicate Keeper(items: seq<Item>, rejects: string -> bool, i: nat)
    requires i < |items|
  {
    && !rejects(items[i].row.text)
    && forall j | 0 <= j < |items| && SameText(items, i, j) :: Outranks(items, i, j)
  }

  function Keepers(items: seq<Item>, rejects: string -> bool, n: nat): (r: seq<nat>)
    requires n <= |items|
    ensures forall a | 0 <= a < |r| :: r[a] < n && Keeper(items, rejects, r[a])
    ensures forall i | 0 <= i < n && Keeper(items, rejects, i) :: i in r
    ensures forall a, b | 0 <= a < b < |r| :: r[a] < r[b]
  {
    if n == 0 then [] else
      Keepers(items, rejects, n - 1) + if Keeper(items, rejects, n - 1) then [n - 1] else []
  }

  /** Every text that is not rejected has exactly one keeper. */
  lemma OneKeeperEach(items: seq<Item>, rejects: string -> bool, i: nat) returns (k: nat)
    requires i < |items| && !rejects(items[i].row.text)
    ensures k < |items| && Keeper(items, rejects, k) && SameText(items, i, k)
    ensures forall j | 0 <= j < |items| && SameText(items, i, j) && Keeper(items, rejects, j) :: j == k
  {
    k := i;
    for n := 0 to |items|
      invariant k < |items| && SameText(items, i, k)
      invariant forall j | 0 <= j < n && SameText(items, i, j) :: Outranks(items, k, j)
    {
      if SameText(items, i, n) && !Outranks(items, k, n) { k := n; }
    }
    forall j | 0 <= j < |items| && SameText(items, i, j) && Keeper(items, rejects, j) ensures j == k {
      assert SameText(items, j, k) && Outranks(items, j, k);
    }
  }

  /** Why a copy stays: it is active and the other is not, or of two that agree on that, pinned, or used later, or
      newer, or at last the one that stands first. */
  lemma KeeperIsBest(items: seq<Item>, rejects: string -> bool, k: nat, j: nat)
    requires k < |items| && j < |items| && j != k && Keeper(items, rejects, k) && SameText(items, k, j)
    ensures var a, b := items[k].row, items[j].row;
            || (items[k].hot && !items[j].hot)
            || (items[k].hot == items[j].hot
                && (|| (a.pin && !b.pin)
                    || (a.pin == b.pin && a.lastUsed > b.lastUsed)
                    || (a.pin == b.pin && a.lastUsed == b.lastUsed && a.addedTurn > b.addedTurn)
                    || (a.pin == b.pin && a.lastUsed == b.lastUsed && a.addedTurn == b.addedTurn && k < j)))
  {
    assert Outranks(items, k, j);
  }

  // ---------------------------------------------------------------------------------
  // The classification as the program computes it
  // ---------------------------------------------------------------------------------

  ghost predicate Positions(indices: seq<nat>, items: seq<Item>) {
    forall m | 0 <= m < |indices| :: indices[m] < |items|
  }

  method SurvivorIndex(indices: seq<nat>, items: seq<Item>) returns (best: nat)
    requires indices != [] && Positions(indices, items)
    ensures best in indices && best < |items|
    ensures forall m | 0 <= m < |indices| :: Outlives(items, best, indices[m])
  {
    best := indices[0];
    for n := 1 to |indices|
      invariant best in indices && best < |items|
      invariant forall m | 0 <= m < n :: Outlives(items, best, indices[m])
    {
      if !Outlives(items, best, indices[n]) { best := indices[n]; }
    }
  }

  ghost predicate GroupOf(items: seq<Item>, group: seq<nat>, t: string, n: nat)
    requires n <= |items|
  {
    && group != []
    && (forall m | 0 <= m < |group| :: group[m] < n && items[group[m]].row.text == t)
    && (forall i | 0 <= i < n && items[i].row.text == t :: i in group)
  }

  ghost predicate Grouped(items: seq<Item>, rejects: string -> bool, byText: map<string, seq<nat>>, n: nat)
    requires n <= |items|
  {
    && (forall t | t in byText :: !rejects(t) && GroupOf(items, byText[t], t, n))
    && (forall i | 0 <= i < n && !rejects(items[i].row.text) :: items[i].row.text in byText)
  }

  lemma GroupGrows(items: seq<Item>, group: seq<nat>, t: string, pos: nat)
    requires pos < |items|
    requires group == [] ==> forall i | 0 <= i < pos :: items[i].row.text != t
    requires group != [] ==> GroupOf(items, group, t, pos)
    ensures items[pos].row.text == t ==> GroupOf(items, group + [pos], t, pos + 1)
    ensures items[pos].row.text != t && group != [] ==> GroupOf(items, group, t, pos + 1)
  {
    var more := group + [pos];
    assert more[|group|] == pos;
    forall i | 0 <= i < pos && items[i].row.text == t ensures i in more { assert i in group; }
  }

  lemma GroupedGrows(items: seq<Item>, rejects: string -> bool, byText: map<string, seq<nat>>, pos: nat)
    requires pos < |items| && Grouped(items, rejects, byText, pos)
    ensures var t := items[pos].row.text;
            Grouped(items, rejects,
                    if rejects(t) then byText else byText[t := (if t in byText then byText[t] else []) + [pos]], pos + 1)
  {
    var t := items[pos].row.text;
    hide GroupOf;
    forall u | u in byText && u != t ensures GroupOf(items, byText[u], u, pos + 1) {
      assert byText[u] != [] by { NotEmpty(items, byText[u], u, pos); }
      GroupGrows(items, byText[u], u, pos);
    }
    if !rejects(t) {
      if t in byText { NotEmpty(items, byText[t], t, pos); }
      GroupGrows(items, if t in byText then byText[t] else [], t, pos);
    }
  }

  lemma NotEmpty(items: seq<Item>, group: seq<nat>, t: string, n: nat)
    requires n <= |items| && GroupOf(items, group, t, n)
    ensures group != []
  {}

  method GroupByText(items: seq<Item>, rejects: string -> bool) returns (byText: map<string, seq<nat>>)
    ensures Grouped(items, rejects, byText, |items|)
  {
    byText := map[];
    assert Grouped(items, rejects, byText, 0);
    hide Grouped;
    for pos := 0 to |items|
      invariant Grouped(items, rejects, byText, pos)
    {
      var t := items[pos].row.text;
      GroupedGrows(items, rejects, byText, pos);
      if !rejects(t) {
        byText := byText[t := (if t in byText then byText[t] else []) + [pos]];
      }
    }
  }

  method GroupKeeper(group: seq<nat>, items: seq<Item>) returns (keeper: nat)
    requires group != [] && Positions(group, items)
    ensures keeper in group && keeper < |items|
    ensures forall m | 0 <= m < |group| :: Outranks(items, keeper, group[m])
  {
    var hot: seq<nat> := [];
    for n := 0 to |group|
      invariant Positions(hot, items)
      invariant forall m | 0 <= m < |hot| :: hot[m] in group && items[hot[m]].hot
      invariant forall m | 0 <= m < n && items[group[m]].hot :: group[m] in hot
    {
      if items[group[n]].hot { hot := hot + [group[n]]; }
    }
    keeper := SurvivorIndex(if hot != [] then hot else group, items);
  }

  method DropLosers(items: seq<Item>, rejects: string -> bool, byText: map<string, seq<nat>>)
    returns (dropped: set<nat>)
    requires Grouped(items, rejects, byText, |items|)
    ensures Settled(items, rejects, dropped, byText.Keys)
  {
    hide Outlives, Outranks, Keeper;
    dropped := {};
    var todo := byText.Keys;
    while todo != {}
      invariant todo <= byText.Keys
      invariant Settled(items, rejects, dropped, byText.Keys - todo)
    {
      var t :| t in todo;
      var keeper := GroupKeeper(byText[t], items);
      KeeperOfGroup(items, rejects, byText[t], t, keeper);
      dropped := dropped + set i | i in byText[t] && i != keeper;
      todo := todo - {t};
    }
  }

  method Survivors(items: seq<Item>, rejects: string -> bool) returns (kept: seq<nat>)
    ensures kept == Keepers(items, rejects, |items|)
  {
    var byText := GroupByText(items, rejects);
    var dropped := DropLosers(items, rejects, byText);
    kept := [];
    for pos := 0 to |items|
      invariant kept == Keepers(items, rejects, pos)
    {
      if !rejects(items[pos].row.text) && pos !in dropped { kept := kept + [pos]; }
    }
  }

  /** The dropped positions are the rows of the settled texts that are not keepers. */
  ghost predicate Settled(items: seq<Item>, rejects: string -> bool, dropped: set<nat>, texts: set<string>) {
    forall i | 0 <= i < |items| :: i in dropped <==> items[i].row.text in texts && !Keeper(items, rejects, i)
  }

  lemma KeeperOfGroup(items: seq<Item>, rejects: string -> bool, group: seq<nat>, t: string, keeper: nat)
    requires GroupOf(items, group, t, |items|) && keeper in group && !rejects(t)
    requires forall m | 0 <= m < |group| :: keeper < |items| && group[m] < |items| && Outranks(items, keeper, group[m])
    ensures forall i | 0 <= i < |items| && items[i].row.text == t ::
              i in group && (i == keeper <==> Keeper(items, rejects, i))
    ensures forall i | i in group :: i < |items| && items[i].row.text == t
  {
    forall i | 0 <= i < |items| && items[i].row.text == t
      ensures i in group && (i == keeper <==> Keeper(items, rejects, i))
    {
      assert i in group;
      var m :| 0 <= m < |group| && group[m] == i;
      if i != keeper { assert SameText(items, i, keeper); }
    }
  }
}
