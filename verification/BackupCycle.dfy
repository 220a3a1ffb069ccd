/**
  One cycle of the backup daemon of compactor/backup.py over a directory of archives: publish,
  compare with the marks carried in the previous archive's manifest, and prune only if
  nothing was lost.
  */
module BackupCycle {
  import opened Retention
  import opened HighWater

  datatype Manifest = Manifest(census: Census, hwm: Hwm)

  /** What the foreign calls of one cycle reported. `otherLosses` stands for the regressions
      against the previous archive that are not about high-water marks. */
  datatype Cycle = Cycle(entry: Archive, census: Census, created: bool, verified: bool, collapsed: bool, otherLosses: bool)

  datatype Report = Report(ok: bool, lost: bool, losses: set<Loss>, pruned: set<string>)

  class BackupDir {
    const policy: Policy
    var archives: seq<Archive>
    var manifests: map<string, Manifest>   // by archive name; absent when unreadable
    ghost var published: set<Archive>      // every archive ever published
    ghost var prunedAt: real               // the time of the latest prune

    /** Nothing that retention would still claim has been lost, and nothing else appeared. */
    ghost predicate Valid() reads this {
      && NewestFirst(archives) && policy.floor >= HARD_FLOOR
      && Keep(policy, prunedAt, published) <= All(archives) <= published
    }

    constructor (p: Policy, now: real)
      requires p.floor >= HARD_FLOOR
      ensures Valid() && archives == [] && published == {} && prunedAt == now && policy == p
    {
      policy, archives, manifests, published, prunedAt := p, [], map[], {}, now;
    }

    function PreviousMarks(): Hwm reads this {
      if archives != [] && archives[0].name in manifests then manifests[archives[0].name].hwm else map[]
    }

    /** The floor holds in every state that the cycles can reach. */
    lemma EnoughLeft()
      requires Valid()
      ensures |All(archives)| >= if |published| < policy.floor then |published| else policy.floor
    {
      KeepIsEnough(policy, prunedAt, published);
      SubsetSize(Keep(policy, prunedAt, published), All(archives));
    }

    /** prune_old_backups. `stuck` archives cannot be unlinked. */
    method PruneOldBackups(now: real, stuck: set<Archive>) returns (removed: set<string>)
      requires Valid() && prunedAt <= now
      modifies this
      ensures Valid() && prunedAt == now && published == old(published) && manifests == old(manifests)
      ensures All(archives) == Keep(policy, now, old(All(archives))) + old(All(archives)) * stuck
      ensures stuck == {} ==> All(archives) == Keep(policy, now, published)
      ensures removed == NamesOf(old(All(archives)) - All(archives))
      ensures old(archives) != [] ==> archives != [] && archives[0] == old(archives)[0]
    {
      hide NewestFirst, Claimed;
      var keep := KeepSet(policy, now, archives);
      ghost var before := archives;
      var left: seq<Archive> := [];
      removed := {};
      for i := 0 to |archives|
        invariant archives == before && published == old(published) && manifests == old(manifests)
        invariant prunedAt == old(prunedAt)
        invariant left == Surviving(before[..i], keep, stuck)
        invariant removed == NamesOf(All(before[..i]) - All(left))
      {
        var a := archives[i];
        SweepStep(before, keep, stuck, i);
        if a.name !in keep && a !in stuck {
          removed := removed + {a.name};
        } else {
          left := left + [a];
        }
      }
      assert before[..|before|] == before;
      SurvivingIs(before, keep, stuck);
      PruneSettles(policy, prunedAt, now, published, All(before), stuck);
      SurvivorsAreClaimed(policy, now, before, keep, stuck);
      if before != [] {
        NewestStays(policy, now, before, left);
      }
      archives, prunedAt := left, now;
    }

    /** An archive about to be published is newer than all the others, under a name of its own. */
    ghost predicate NewEntry(e: Archive)
      reads this
    {
      NewTo(e, published, archives)
    }

    /** run_once. A published archive carries the marks that follow from the previous one's. A
        cycle that reports a loss prunes nothing, and one that publishes nothing changes nothing. */
    method RunOnce(c: Cycle, now: real, stuck: set<Archive>) returns (report: Report)
      requires Valid() && prunedAt <= now
      requires NewEntry(c.entry)
      modifies this
      ensures Valid() && prunedAt <= now
      ensures Tells(report, c, old(PreviousMarks()))
      ensures !report.ok ==> archives == old(archives) && manifests == old(manifests) && published == old(published)
      ensures report.ok ==> published == old(published) + {c.entry}
      ensures report.ok ==> c.entry.name in manifests && manifests[c.entry.name].census == c.census
                            && Follows(old(PreviousMarks()), c.census, manifests[c.entry.name].hwm)
      ensures report.ok ==> archives != [] && archives[0] == c.entry
      ensures if report.ok then Follows(old(PreviousMarks()), c.census, PreviousMarks())
              else PreviousMarks() == old(PreviousMarks())
      ensures All(archives) <= old(All(archives)) + {c.entry}
      ensures forall e | old(NewEntry(e)) && c.entry.mtime < e.mtime && c.entry.name != e.name :: NewEntry(e)
      ensures report.lost ==> report.ok && archives == [c.entry] + old(archives)
                              && All(archives) == old(All(archives)) + {c.entry}
      ensures prunedAt == old(prunedAt) || (prunedAt == now && report.ok && !report.lost)
      ensures report.ok ==> report.pruned == NamesOf(old(All(archives)) + {c.entry} - All(archives))
      ensures report.ok && !report.lost ==>
                var all := old(All(archives)) + {c.entry};
                All(archives) == Keep(policy, now, all) + all * stuck
      ensures report.ok && !report.lost && stuck == {} ==> All(archives) == Keep(policy, now, published)
    {
      report := Report(false, false, {}, {});
      if !c.created {
        return;
      }
      var hwm, losses := CensusHwmUpdate(PreviousMarks(), c.census);
      if !c.verified || c.collapsed {
        return;
      }
      PublishKeeps(policy, prunedAt, published, archives, c.entry);
      archives := [c.entry] + archives;
      manifests := manifests[c.entry.name := Manifest(c.census, hwm)];
      published := published + {c.entry};
      StillNew(c.entry, old(published), old(archives), published, archives);
      if losses != {} || c.otherLosses {
        return Report(true, true, losses, {});
      }
      var pruned := PruneOldBackups(now, stuck);
      StillNew(c.entry, old(published), old(archives), published, archives);
      report := Report(true, false, losses, pruned);
    }

    /** Any number of cycles, publishing or not: the marks form one run over the published
        censuses, each report says what its cycle came to and names exactly the alarms of its
        step of the run, and a field that no report named has at no speed lost half of what it held. */
    method RunCycles(cycles: seq<Cycle>, nows: seq<real>, stuck: seq<set<Archive>>)
      returns (reports: seq<Report>, ghost marks: seq<Hwm>)
      requires Valid() && |nows| == |cycles| == |stuck|
      requires forall i | 0 <= i < |nows| :: prunedAt <= nows[i] && forall j | i < j < |nows| :: nows[i] <= nows[j]
      requires forall i | 0 <= i < |cycles| :: NewEntry(cycles[i].entry)
      requires forall i, j | 0 <= i < j < |cycles| ::
                 cycles[i].entry.mtime < cycles[j].entry.mtime && cycles[i].entry.name != cycles[j].entry.name
      modifies this
      ensures Valid() && published == old(published) + Entries(cycles)
      ensures |All(archives)| >= if |published| < policy.floor then |published| else policy.floor
      ensures IsRun(marks, PublishedCensuses(cycles)) && marks[0] == old(PreviousMarks())
      ensures marks[|PublishedCensuses(cycles)|] == PreviousMarks()
      ensures Reported(cycles, marks, reports)
      ensures Gated(reports, nows, old(All(archives)) + Entries(cycles), All(archives), old(prunedAt), prunedAt)
      ensures forall conv, f {:trigger Unreported(reports, conv, f)} ::
                Unreported(reports, conv, f) ==> HoldsHalf(PublishedCensuses(cycles), conv, f)
    {
      hide Follows, Raised, NewestFirst, Keep, Reported, Entries, PublishedCensuses, Tells, NamesOf, HoldsHalf, Unreported, Gated;
      hide Valid, NewEntry, All, PreviousMarks;
      reports, marks := [], [PreviousMarks()];
      NoCyclesYet(cycles, PreviousMarks());
      assert Gated([], nows, All(archives), All(archives), prunedAt, prunedAt) by { NothingPruned(nows, All(archives), prunedAt); }
      assert old(All(archives)) + {} == All(archives);
      for k := 0 to |cycles|
        invariant Valid() && (forall i | k <= i < |nows| :: prunedAt <= nows[i])
        invariant published == old(published) + Entries(cycles[..k])
        invariant forall i | k <= i < |cycles| :: NewEntry(cycles[i].entry)
        invariant IsRun(marks, PublishedCensuses(cycles[..k])) && marks[0] == old(PreviousMarks())
        invariant marks[|PublishedCensuses(cycles[..k])|] == PreviousMarks()
        invariant Reported(cycles[..k], marks, reports) && |reports| == k
        invariant Gated(reports, nows, old(All(archives)) + Entries(cycles[..k]), All(archives), old(prunedAt), prunedAt)
      {
        ghost var kept, pruned := archives, prunedAt;
        OneMoreCycle(cycles, k);
        var report := RunOnce(cycles[k], nows[k], stuck[k]);
        ghost var more := if report.ok then marks + [PreviousMarks()] else marks;
        RunGrows(cycles, k, marks, report.ok, PreviousMarks());
        ReportedGrows(cycles, k, marks, more, reports, report);
        GatedGrows(reports, nows, report, old(All(archives)) + Entries(cycles[..k]), All(kept), cycles[k].entry,
                   All(archives), old(prunedAt), pruned, prunedAt);
        assert old(All(archives)) + Entries(cycles[..k + 1])
            == old(All(archives)) + Entries(cycles[..k]) + if report.ok then {cycles[k].entry} else {};
        reports, marks := reports + [report], more;
      }
      assert cycles[..|cycles|] == cycles;
      EnoughLeft();
      forall conv, f | Unreported(reports, conv, f) ensures HoldsHalf(PublishedCensuses(cycles), conv, f) {
        UnreportedHoldsHalf(cycles, marks, reports, conv, f);
      }
    }
  }

  ghost predicate NewTo(e: Archive, published: set<Archive>, archives: seq<Archive>) {
    e !in published && forall a | a in archives :: a.mtime < e.mtime && a.name != e.name
  }

  /** What is newer still than an archive that was published stays new. */
  lemma StillNew(entry: Archive, published: set<Archive>, archives: seq<Archive>, published': set<Archive>,
                 archives': seq<Archive>)
    requires published' == published + {entry} && All(archives') <= All(archives) + {entry}
    ensures forall e | NewTo(e, published, archives) && entry.mtime < e.mtime && entry.name != e.name ::
              NewTo(e, published', archives')
  {
    assert forall a | a in archives' :: a in All(archives');
  }

  /** Only cycles that reported no loss prune, and their reports name everything that is gone. */
  ghost predicate Gated(reports: seq<Report>, nows: seq<real>, all: set<Archive>, left: set<Archive>,
                        before: real, after: real) {
    && |reports| <= |nows| && left <= all
    && (forall a | a in all && a !in left :: exists r | r in reports :: r.ok && !r.lost && a.name in r.pruned)
    && (after == before || exists k | 0 <= k < |reports| :: reports[k].ok && !reports[k].lost && after == nows[k])
  }

  lemma GatedGrows(reports: seq<Report>, nows: seq<real>, report: Report, all: set<Archive>, left: set<Archive>,
                   entry: Archive, now: set<Archive>, before: real, was: real, after: real)
    requires Gated(reports, nows, all, left, before, was) && |reports| < |nows|
    requires now <= left + {entry} && (!report.ok ==> now == left) && (report.lost ==> now == left + {entry})
    requires report.ok ==> report.pruned == NamesOf(left + {entry} - now)
    requires after == was || (after == nows[|reports|] && report.ok && !report.lost)
    ensures Gated(reports + [report], nows, all + if report.ok then {entry} else {}, now, before, after)
  {
    var more := reports + [report];
    assert more[|reports|] == report && forall k | 0 <= k < |reports| :: more[k] == reports[k];
    forall a | a in all + (if report.ok then {entry} else {}) && a !in now
      ensures exists r | r in more :: r.ok && !r.lost && a.name in r.pruned
    {
      if a in all && a !in left {
        var r :| r in reports && r.ok && !r.lost && a.name in r.pruned;
        assert r in more;
      } else {
        assert a in left + {entry} - now && report in more;
      }
    }
  }

  lemma NothingPruned(nows: seq<real>, all: set<Archive>, t: real)
    ensures Gated([], nows, all, all, t, t)
  {}

  lemma NoCyclesYet(cycles: seq<Cycle>, mark: Hwm)
    ensures Entries(cycles[..0]) == {} && PublishedCensuses(cycles[..0]) == []
    ensures IsRun([mark], []) && Reported(cycles[..0], [mark], [])
  {
    assert cycles[..0] == [];
  }

  /** The cycle gets as far as publishing its archive. */
  predicate Publishes(c: Cycle) { c.created && c.verified && !c.collapsed }

  function PublishedCensuses(cycles: seq<Cycle>): seq<Census> {
    if cycles == [] then [] else
      var init, c := PublishedCensuses(cycles[..|cycles| - 1]), cycles[|cycles| - 1];
      if Publishes(c) then init + [c.census] else init
  }

  function Entries(cycles: seq<Cycle>): set<Archive> { set c | c in cycles && Publishes(c) :: c.entry }

  /** What the report of a cycle says, if `marks` was the high-water mark before it. */
  ghost predicate Tells(report: Report, c: Cycle, marks: Hwm) {
    && (report.ok <==> Publishes(c))
    && (!report.ok ==> report == Report(false, false, {}, {}))
    && (report.ok ==> forall l :: l in report.losses <==> Raised(marks, c.census, l))
    && (report.ok ==> (report.lost <==> report.losses != {} || c.otherLosses))
    && (report.lost ==> report.pruned == {})
  }

  /** Every report tells of its own cycle, against the marks of the archives published before. */
  ghost predicate Reported(cycles: seq<Cycle>, marks: seq<Hwm>, reports: seq<Report>) {
    && |reports| == |cycles| && |marks| == |PublishedCensuses(cycles)| + 1
    && forall i | 0 <= i < |cycles| ::
         var before := |PublishedCensuses(cycles[..i])|;
         before < |marks| && Tells(reports[i], cycles[i], marks[before])
  }

  lemma OneMoreCycle(cycles: seq<Cycle>, k: nat)
    requires k < |cycles|
    ensures Entries(cycles[..k + 1]) == Entries(cycles[..k]) + if Publishes(cycles[k]) then {cycles[k].entry} else {}
    ensures PublishedCensuses(cycles[..k + 1])
         == PublishedCensuses(cycles[..k]) + if Publishes(cycles[k]) then [cycles[k].census] else []
  {
    assert cycles[..k + 1] == cycles[..k] + [cycles[k]];
  }

  lemma RunGrows(cycles: seq<Cycle>, k: nat, marks: seq<Hwm>, ok: bool, hwm: Hwm)
    requires k < |cycles| && IsRun(marks, PublishedCensuses(cycles[..k])) && (ok <==> Publishes(cycles[k]))
    requires ok ==> Follows(marks[|PublishedCensuses(cycles[..k])|], cycles[k].census, hwm)
    ensures IsRun(if ok then marks + [hwm] else marks, PublishedCensuses(cycles[..k + 1]))
    ensures |marks| == |PublishedCensuses(cycles[..k])| + 1
    ensures |PublishedCensuses(cycles[..k + 1])| == |PublishedCensuses(cycles[..k])| + if ok then 1 else 0
  {
    hide Follows;
    OneMoreCycle(cycles, k);
  }

  lemma ReportedGrows(cycles: seq<Cycle>, k: nat, marks: seq<Hwm>, more: seq<Hwm>, reports: seq<Report>, report: Report)
    requires k < |cycles| && Reported(cycles[..k], marks, reports) && marks <= more
    requires |more| == |PublishedCensuses(cycles[..k + 1])| + 1
    requires Tells(report, cycles[k], marks[|PublishedCensuses(cycles[..k])|])
    ensures Reported(cycles[..k + 1], more, reports + [report])
  {
    hide PublishedCensuses, Tells;
    var now := cycles[..k + 1];
    forall i | 0 <= i < k + 1
      ensures var before := |PublishedCensuses(now[..i])|;
              before < |more| && Tells((reports + [report])[i], now[i], more[before])
    {
      assert now[..i] == cycles[..i];
      if i < k {
        assert cycles[..k][..i] == cycles[..i] && cycles[..k][i] == now[i];
      }
    }
  }

  ghost predicate Unreported(reports: seq<Report>, conv: string, f: Field) {
    forall i, l | 0 <= i < |reports| && l in reports[i].losses :: l.conv != conv || l.field != f
  }

  ghost predicate HoldsHalf(censuses: seq<Census>, conv: string, f: Field) {
    forall i, j | 0 <= j <= i < |censuses| :: 2 * Reading(censuses[i], conv, f) >= Reading(censuses[j], conv, f)
  }

  /** Each published census comes from a cycle, with the censuses before it published before. */
  lemma {:induction false} PublishedBy(cycles: seq<Cycle>, i: nat) returns (k: nat)
    requires i < |PublishedCensuses(cycles)|
    ensures k < |cycles| && Publishes(cycles[k]) && |PublishedCensuses(cycles[..k])| == i
    ensures cycles[k].census == PublishedCensuses(cycles)[i]
  {
    var init := cycles[..|cycles| - 1];
    if i < |PublishedCensuses(init)| {
      k := PublishedBy(init, i);
      assert init[..k] == cycles[..k];
    } else {
      k := |init|;
    }
  }

  lemma UnreportedHoldsHalf(cycles: seq<Cycle>, marks: seq<Hwm>, reports: seq<Report>, conv: string, f: Field)
    requires IsRun(marks, PublishedCensuses(cycles)) && Reported(cycles, marks, reports) && Unreported(reports, conv, f)
    ensures HoldsHalf(PublishedCensuses(cycles), conv, f)
  {
    hide IsRun, Level, Reading, PublishedCensuses, HoldsHalf;
    var censuses := PublishedCensuses(cycles);
    RunLengths(marks, censuses);
    forall i | 0 <= i < |censuses|
      ensures !Raised(marks[i], censuses[i], Loss(conv, f, Level(marks[i], conv, f), Reading(censuses[i], conv, f)))
    {
      var k := PublishedBy(cycles, i);
      assert Tells(reports[k], cycles[k], marks[i]);
    }
    Halves(marks, censuses, conv, f);
  }

  lemma RunLengths(marks: seq<Hwm>, censuses: seq<Census>)
    requires IsRun(marks, censuses)
    ensures |marks| == |censuses| + 1
  {}

  lemma Halves(marks: seq<Hwm>, censuses: seq<Census>, conv: string, f: Field)
    requires IsRun(marks, censuses)
    requires forall i | 0 <= i < |censuses| ::
               !Raised(marks[i], censuses[i], Loss(conv, f, Level(marks[i], conv, f), Reading(censuses[i], conv, f)))
    ensures HoldsHalf(censuses, conv, f)
  {
    UnreportedFieldHasNotHalved(marks, censuses, conv, f);
  }

  /** A prune never takes the newest archive, so the marks it carries stay the baseline. */
  lemma NewestStays(p: Policy, now: real, archives: seq<Archive>, left: seq<Archive>)
    requires NewestFirst(archives) && NewestFirst(left) && archives != [] && p.floor > 0
    requires Keep(p, now, All(archives)) <= All(left) <= All(archives)
    ensures left != [] && left[0] == archives[0]
  {
    RankIsIndex(archives, 0);
    assert archives[0] in Keep(p, now, All(archives));
    var k :| 0 <= k < |left| && left[k] == archives[0];
    assert left[0] in All(archives);
    var j :| 0 <= j < |archives| && archives[j] == left[0];
  }

  lemma PublishKeeps(p: Policy, t: real, published: set<Archive>, archives: seq<Archive>, a: Archive)
    requires NewestFirst(archives) && Keep(p, t, published) <= All(archives) <= published
    requires forall b | b in archives :: b.mtime < a.mtime && b.name != a.name
    ensures NewestFirst([a] + archives) && All([a] + archives) == All(archives) + {a}
    ensures Keep(p, t, published + {a}) <= All(archives) + {a}
  {
    KeepAbsorbsPrune(p, t, t, published, All(archives), {a});
  }

  lemma {:induction false} SurvivorsAreClaimed(p: Policy, now: real, archives: seq<Archive>, keep: set<string>, stuck: set<Archive>)
    requires NewestFirst(archives)
    requires forall k | 0 <= k < |archives| :: archives[k].name in keep <==> Claimed(p, now, All(archives), archives[k])
    ensures All(Surviving(archives, keep, stuck)) == Keep(p, now, All(archives)) + All(archives) * stuck
  {
    hide Claimed;
    SurvivingIs(archives, keep, stuck);
    forall a | a in archives ensures a.name in keep <==> Claimed(p, now, All(archives), a) {
      var k :| 0 <= k < |archives| && archives[k] == a;
    }
  }

  function NamesOf(all: set<Archive>): set<string> { set a | a in all :: a.name }

  function Surviving(archives: seq<Archive>, keep: set<string>, stuck: set<Archive>): seq<Archive> {
    if archives == [] then [] else
      var init, a := Surviving(archives[..|archives| - 1], keep, stuck), archives[|archives| - 1];
      if a.name in keep || a in stuck then init + [a] else init
  }

  lemma {:induction false} SurvivingIs(archives: seq<Archive>, keep: set<string>, stuck: set<Archive>)
    ensures var left := Surviving(archives, keep, stuck);
            && (forall a :: a in left <==> a in archives && (a.name in keep || a in stuck))
            && (NewestFirst(archives) ==> NewestFirst(left))
  {
    if archives != [] {
      var init, a := archives[..|archives| - 1], archives[|archives| - 1];
      assert archives == init + [a];
      SurvivingIs(init, keep, stuck);
      if NewestFirst(archives) { StillNewestFirst(init, a, Surviving(init, keep, stuck)); }
    }
  }

  lemma StillNewestFirst(init: seq<Archive>, a: Archive, left: seq<Archive>)
    requires NewestFirst(init + [a]) && forall b | b in left :: b in init
    ensures NewestFirst(init) && (NewestFirst(left) ==> NewestFirst(left + [a]))
  {
    var all := init + [a];
    forall b | b in init ensures b.mtime > a.mtime && b.name != a.name {
      var i :| 0 <= i < |init| && init[i] == b;
      assert all[i] == b && all[|init|] == a;
    }
    assert forall i | 0 <= i < |init| :: all[i] == init[i];
    assert forall i | 0 <= i < |left| :: left[i] in init;
  }

  lemma OneMoreKept(all: set<Archive>, left: set<Archive>, a: Archive)
    requires a !in all && left <= all
    ensures (all + {a}) - (left + {a}) == all - left
    ensures (all + {a}) - left == (all - left) + {a}
  {}

  lemma OneMoreName(all: set<Archive>, a: Archive)
    ensures NamesOf(all + {a}) == NamesOf(all) + {a.name} && All([]) == {}
  {}

  lemma AllSnoc(archives: seq<Archive>, a: Archive)
    ensures All(archives + [a]) == All(archives) + {a}
  {}

  lemma {:induction false} SweepStep(archives: seq<Archive>, keep: set<string>, stuck: set<Archive>, i: nat)
    requires NewestFirst(archives) && i < |archives|
    ensures var a, left := archives[i], Surviving(archives[..i], keep, stuck);
            && Surviving(archives[..i + 1], keep, stuck) == (if a.name in keep || a in stuck then left + [a] else left)
            && NamesOf(All(archives[..i + 1]) - All(Surviving(archives[..i + 1], keep, stuck)))
               == NamesOf(All(archives[..i]) - All(left)) + if a.name in keep || a in stuck then {} else {a.name}
  {
    hide Surviving, NamesOf, All, NewestFirst;
    var a, left := archives[i], Surviving(archives[..i], keep, stuck);
    SurvivingSnoc(archives, keep, stuck, i);
    AllSnoc(archives[..i], a);
    AllSnoc(left, a);
    OneMoreKept(All(archives[..i]), All(left), a);
    OneMoreName(All(archives[..i]) - All(left), a);
  }

  lemma SurvivingSnoc(archives: seq<Archive>, keep: set<string>, stuck: set<Archive>, i: nat)
    requires NewestFirst(archives) && i < |archives|
    ensures var a, left := archives[i], Surviving(archives[..i], keep, stuck);
            && archives[..i + 1] == archives[..i] + [a]
            && a !in All(archives[..i]) && All(left) <= All(archives[..i])
            && Surviving(archives[..i + 1], keep, stuck) == (if a.name in keep || a in stuck then left + [a] else left)
  {
    assert archives[..i + 1] == archives[..i] + [archives[i]] && archives[..i + 1][..i] == archives[..i];
    SurvivingIs(archives[..i], keep, stuck);
    assert archives[i] !in archives[..i];
  }

  lemma PruneSettles(p: Policy, t: real, now: real, published: set<Archive>, dir: set<Archive>, stuck: set<Archive>)
    requires t <= now && Keep(p, t, published) <= dir <= published
    ensures Keep(p, now, dir) == Keep(p, now, published) <= dir
  {
    KeepAbsorbsPrune(p, t, now, published, dir, {});
    assert dir + {} == dir && published + {} == published;
  }
}
