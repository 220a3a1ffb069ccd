/**
  Retention in compactor/backup.py: which archives the floor, the age tier and the daily and
  weekly tiers claim. The calendar is any assignment of days and weeks to modification times.
  */
module Retention {

  datatype Archive = Archive(name: string, mtime: int)

  /** `floor` is already raised to the minimum number of archives to keep. */
  datatype Policy = Policy(floor: nat, retainDays: real, gfsWeeks: int, day: int -> int, week: int -> int)

  function AgeDays(now: real, a: Archive): real { (now - a.mtime as real) / 86400.0 }

  predicate Young(p: Policy, now: real, a: Archive) { AgeDays(now, a) <= p.retainDays }

  predicate InWeeks(p: Policy, now: real, a: Archive) { AgeDays(now, a) <= (p.gfsWeeks * 7) as real }

  function Newer(all: set<Archive>, a: Archive): set<Archive> { set b | b in all && b.mtime > a.mtime }

  predicate NewestOfWeek(p: Policy, all: set<Archive>, a: Archive) {
    forall b | b in all && b.mtime > a.mtime :: p.week(b.mtime) != p.week(a.mtime)
  }

  /** Some tier claims the archive. The daily tier claims nothing that the age tier does not. */
  predicate Claimed(p: Policy, now: real, all: set<Archive>, a: Archive) {
    var age := now - a.mtime as real;
    || |Newer(all, a)| < p.floor
    || age <= p.retainDays * 86400.0
    || (age <= p.gfsWeeks as real * 604800.0 && NewestOfWeek(p, all, a))
  }

  lemma TiersAre(p: Policy, now: real, a: Archive)
    ensures Young(p, now, a) <==> now - a.mtime as real <= p.retainDays * 86400.0
    ensures InWeeks(p, now, a) <==> now - a.mtime as real <= p.gfsWeeks as real * 604800.0
  {
    assert (p.gfsWeeks * 7) as real == p.gfsWeeks as real * 7.0;
  }

  function Keep(p: Policy, now: real, all: set<Archive>): set<Archive> { set a | a in all && Claimed(p, now, all, a) }

  // ---------------------------------------------------------------------------------
  // Retention does not depend on history
  // ---------------------------------------------------------------------------------

  lemma SubsetSize<T>(a: set<T>, b: set<T>)
    requires a <= b
    ensures |a| <= |b|
  {
    if a != {} {
      var x :| x in a;
      SubsetSize(a - {x}, b - {x});
    }
  }

  /** The newest archive of a week within a set. */
  lemma NewestExists(p: Policy, all: set<Archive>, a: Archive) returns (z: Archive)
    requires a in all
    ensures z in all && z.mtime >= a.mtime && p.week(z.mtime) == p.week(a.mtime) && NewestOfWeek(p, all, z)
    decreases |Newer(all, a)|
  {
    z := a;
    if !NewestOfWeek(p, all, a) {
      var b :| b in all && b.mtime > a.mtime && p.week(b.mtime) == p.week(a.mtime);
      assert Newer(all, b) <= Newer(all, a) - {b};
      SubsetSize(Newer(all, b), Newer(all, a) - {b});
      z := NewestExists(p, all, b);
    }
  }

  /** An archive that no tier claimed is older than every archive the floor ever keeps. */
  lemma UnclaimedIsOld(p: Policy, t: real, all: set<Archive>, s: set<Archive>, y: Archive)
    requires y in all && y !in s && Keep(p, t, all) <= s <= all
    ensures |Newer(s, y)| >= p.floor
  {
    FloorHasRoom(p.floor, all, y);
    var top := Top(p.floor, all);
    assert forall a | a in top :: Claimed(p, t, all, a);
    assert top * Newer(all, y) <= Newer(s, y);
    SubsetSize(top * Newer(all, y), Newer(s, y));
  }

  function Top(floor: nat, all: set<Archive>): set<Archive> { set a | a in all && |Newer(all, a)| < floor }

  /** If `floor` archives are newer than `y`, then `floor` of the newest `floor` are. */
  lemma FloorHasRoom(floor: nat, all: set<Archive>, y: Archive)
    requires y in all && |Newer(all, y)| >= floor
    ensures |Top(floor, all) * Newer(all, y)| >= floor
    decreases |all|
  {
    var newer := Newer(all, y);
    TopOfSubset(floor, newer);
    assert forall a | a in newer :: Newer(newer, a) == Newer(all, a);
    assert Top(floor, newer) <= Top(floor, all) * newer;
    SubsetSize(Top(floor, newer), Top(floor, all) * newer);
  }

  lemma OldestExists(all: set<Archive>) returns (o: Archive)
    requires all != {}
    ensures o in all && forall a | a in all :: o.mtime <= a.mtime
  {
    o :| o in all;
    var rest := all - {o};
    if rest != {} {
      var r := OldestExists(rest);
      if r.mtime < o.mtime {
        o := r;
      }
    }
  }

  /** The floor keeps its number, or everything if there is less. */
  lemma TopOfSubset(floor: nat, all: set<Archive>)
    ensures |Top(floor, all)| >= if |all| < floor then |all| else floor
  {
    if |all| <= floor {
      forall a | a in all ensures |Newer(all, a)| < floor {
        assert Newer(all, a) <= all - {a};
        SubsetSize(Newer(all, a), all - {a});
      }
      assert Top(floor, all) == all;
    } else {
      var o := OldestExists(all);
      var rest := all - {o};
      TopOfSubset(floor, rest);
      forall a | a in rest ensures Newer(all, a) == Newer(rest, a) {
      }
      assert Top(floor, rest) <= Top(floor, all);
      SubsetSize(Top(floor, rest), Top(floor, all));
    }
  }

  /** Retention never leaves fewer than the floor, or than there were. */
  lemma KeepIsEnough(p: Policy, now: real, all: set<Archive>)
    ensures |Keep(p, now, all)| >= if |all| < p.floor then |all| else p.floor
  {
    TopOfSubset(p.floor, all);
    assert Top(p.floor, all) <= Keep(p, now, all);
    SubsetSize(Top(p.floor, all), Keep(p, now, all));
  }

  /** Pruning early, and only in part, makes no difference to a later prune: if `s` lies between
      what was kept at t1 and what there was, then whatever `n` arrives, pruning s + n at t2 is
      pruning everything. */
  lemma KeepAbsorbsPrune(p: Policy, t1: real, t2: real, all: set<Archive>, s: set<Archive>, n: set<Archive>)
    requires t1 <= t2
    requires Keep(p, t1, all) <= s <= all
    ensures Keep(p, t2, s + n) == Keep(p, t2, all + n)
  {
    forall a ensures a in Keep(p, t2, s + n) <==> a in Keep(p, t2, all + n) {
      if a in s + n {
        SurvivorClaimedAlike(p, t1, t2, all, s, n, a);
      } else if a in all + n {
        PrunedStaysUnclaimed(p, t1, t2, all, s, n, a);
      }
    }
  }

  /** A pruned archive is claimed by nothing later either. */
  lemma PrunedStaysUnclaimed(p: Policy, t1: real, t2: real, all: set<Archive>, s: set<Archive>, n: set<Archive>,
                             y: Archive)
    requires t1 <= t2 && Keep(p, t1, all) <= s <= all && y in all && y !in s
    ensures !Claimed(p, t2, all + n, y)
  {
    UnclaimedIsOld(p, t1, all, s, y);
    assert Newer(s, y) <= Newer(all + n, y);
    SubsetSize(Newer(s, y), Newer(all + n, y));
    assert !Claimed(p, t1, all, y);
    assert AgeDays(t1, y) <= AgeDays(t2, y);
  }

  /** A survivor is claimed among the survivors exactly if it is claimed among everything. */
  lemma SurvivorClaimedAlike(p: Policy, t1: real, t2: real, all: set<Archive>, s: set<Archive>, n: set<Archive>,
                             a: Archive)
    requires t1 <= t2 && Keep(p, t1, all) <= s <= all && a in s + n
    ensures Claimed(p, t2, s + n, a) <==> Claimed(p, t2, all + n, a)
  {
    var few, many := s + n, all + n;
    assert Newer(few, a) <= Newer(many, a);
    SubsetSize(Newer(few, a), Newer(many, a));
    if exists y :: y in Newer(many, a) && y !in few {
      // A pruned archive is newer than `a`: then `floor` survivors are, too.
      var y :| y in Newer(many, a) && y !in few;
      UnclaimedIsOld(p, t1, all, s, y);
      assert Newer(s, y) <= Newer(few, a);
      SubsetSize(Newer(s, y), Newer(few, a));
    } else {
      assert Newer(few, a) == Newer(many, a);
    }
    if InWeeks(p, t2, a) && NewestOfWeek(p, few, a) && !NewestOfWeek(p, many, a) {
      var y :| y in many && y.mtime > a.mtime && p.week(y.mtime) == p.week(a.mtime);
      var z := NewestExists(p, all, y);
    }
  }

  // ---------------------------------------------------------------------------------
  // Any interleaving of publishes and prunes
  // ---------------------------------------------------------------------------------

  /** `stuck` are archives that could not be unlinked. */
  datatype Event = Publish(a: Archive) | Prune(now: real, stuck: set<Archive>)

  function After(p: Policy, events: seq<Event>): set<Archive> {
    if events == [] then {} else
      var dir := After(p, events[..|events| - 1]);
      match events[|events| - 1]
      case Publish(a) => dir + {a}
      case Prune(now, stuck) => Keep(p, now, dir) + dir * stuck
  }

  function Published(events: seq<Event>): set<Archive> {
    if events == [] then {} else
      var before := Published(events[..|events| - 1]);
      if events[|events| - 1].Publish? then before + {events[|events| - 1].a} else before
  }

  ghost predicate TimeMovesOn(events: seq<Event>, until: real) {
    && (forall i, j | 0 <= i < j < |events| && events[i].Prune? && events[j].Prune? :: events[i].now <= events[j].now)
    && (forall i | 0 <= i < |events| && events[i].Prune? :: events[i].now <= until)
  }

  /** What is in the directory lies between what a prune of everything would keep and everything. */
  lemma {:induction false} NothingClaimedIsLost(p: Policy, events: seq<Event>, until: real)
    requires TimeMovesOn(events, until)
    ensures Keep(p, until, Published(events)) <= After(p, events) <= Published(events)
  {
    if events != [] {
      var init, last := events[..|events| - 1], events[|events| - 1];
      match last {
        case Publish(a) =>
          NothingClaimedIsLost(p, init, until);
          KeepAbsorbsPrune(p, until, until, Published(init), After(p, init), {a});
        case Prune(now, stuck) =>
          NothingClaimedIsLost(p, init, now);
          KeepAbsorbsPrune(p, now, now, Published(init), After(p, init), {});
          assert After(p, init) + {} == After(p, init) && Published(init) + {} == Published(init);
          KeepAbsorbsPrune(p, now, until, Published(init), After(p, events), {});
          assert After(p, events) + {} == After(p, events);
      }
    }
  }

  /** After a prune the survivors depend on what was ever published and on the time of that
      prune, not on the prunes before it, whether they were skipped, partial or repeated. */
  lemma RetentionHasNoHistory(p: Policy, events: seq<Event>, now: real)
    requires TimeMovesOn(events, now)
    ensures After(p, events + [Prune(now, {})]) == Keep(p, now, Published(events))
  {
    NothingClaimedIsLost(p, events, now);
    KeepAbsorbsPrune(p, now, now, Published(events), After(p, events), {});
    assert After(p, events) + {} == After(p, events) && Published(events) + {} == Published(events);
    assert (events + [Prune(now, {})])[..|events|] == events;
  }

  /** ... and never number fewer than the floor, or than were ever published. */
  lemma FloorAlwaysHolds(p: Policy, events: seq<Event>, until: real)
    requires TimeMovesOn(events, until)
    ensures |After(p, events)| >= if |Published(events)| < p.floor then |Published(events)| else p.floor
  {
    NothingClaimedIsLost(p, events, until);
    KeepIsEnough(p, until, Published(events));
    SubsetSize(Keep(p, until, Published(events)), After(p, events));
  }

  // ---------------------------------------------------------------------------------
  // The code
  // ---------------------------------------------------------------------------------

  const HARD_FLOOR := 3

  /** list_backups: newest first. */
  ghost predicate NewestFirst(archives: seq<Archive>) {
    forall i, j | 0 <= i < j < |archives| :: archives[i].mtime > archives[j].mtime && archives[i].name != archives[j].name
  }

  function All(archives: seq<Archive>): set<Archive> { set a | a in archives }

  lemma RankIsIndex(archives: seq<Archive>, k: nat)
    requires NewestFirst(archives) && k < |archives|
    ensures |Newer(All(archives), archives[k])| == k
    decreases k
  {
    if k == 0 {
      assert Newer(All(archives), archives[0]) == {};
    } else {
      RankIsIndex(archives, k - 1);
      assert Newer(All(archives), archives[k]) == Newer(All(archives), archives[k - 1]) + {archives[k - 1]};
    }
  }

  /** The weeks seen so far are those of the newer archives inside the window. */
  ghost predicate WeeksSoFar(p: Policy, now: real, archives: seq<Archive>, weeks: set<int>, i: nat)
    requires i <= |archives|
  {
    forall w :: w in weeks <==> exists j :: 0 <= j < i && InWeeks(p, now, archives[j]) && p.week(archives[j].mtime) == w
  }

  lemma OneMoreWeek(p: Policy, now: real, archives: seq<Archive>, weeks: set<int>, i: nat)
    requires i < |archives| && WeeksSoFar(p, now, archives, weeks, i)
    ensures !InWeeks(p, now, archives[i]) || p.week(archives[i].mtime) in weeks ==>
              WeeksSoFar(p, now, archives, weeks, i + 1)
    ensures InWeeks(p, now, archives[i]) ==>
              WeeksSoFar(p, now, archives, weeks + {p.week(archives[i].mtime)}, i + 1)
  {
    hide InWeeks;
  }

  lemma WeekSeenIffNewer(p: Policy, now: real, archives: seq<Archive>, i: nat, weeks: set<int>)
    requires NewestFirst(archives) && i < |archives| && InWeeks(p, now, archives[i])
    requires WeeksSoFar(p, now, archives, weeks, i)
    ensures p.week(archives[i].mtime) !in weeks <==> NewestOfWeek(p, All(archives), archives[i])
  {
    if p.week(archives[i].mtime) in weeks {
      var j :| 0 <= j < i && InWeeks(p, now, archives[j]) && p.week(archives[j].mtime) == p.week(archives[i].mtime);
      assert archives[j] in All(archives);
    }
  }

  /** The archives the floor or the loop has claimed, `i` archives into the loop. */
  ghost predicate KeepSoFar(p: Policy, now: real, archives: seq<Archive>, keep: set<string>, i: nat) {
    forall k {:trigger archives[k]} | 0 <= k < |archives| :: archives[k].name in keep <==>
      k < p.floor || (k < i && Claimed(p, now, All(archives), archives[k]))
  }

  lemma KeepOneMore(p: Policy, now: real, archives: seq<Archive>, keep: set<string>, i: nat, claims: bool)
    requires NewestFirst(archives) && i < |archives| && KeepSoFar(p, now, archives, keep, i)
    requires claims <==> Young(p, now, archives[i]) || (InWeeks(p, now, archives[i]) && NewestOfWeek(p, All(archives), archives[i]))
    ensures KeepSoFar(p, now, archives, if claims then keep + {archives[i].name} else keep, i + 1)
  {
    hide All, Young, InWeeks, NewestOfWeek, Newer;
    RankIsIndex(archives, i);
    TiersAre(p, now, archives[i]);
  }

  lemma KeepIsClaimed(p: Policy, now: real, archives: seq<Archive>, keep: set<string>)
    requires NewestFirst(archives) && KeepSoFar(p, now, archives, keep, |archives|)
    ensures forall k | 0 <= k < |archives| :: archives[k].name in keep <==> Claimed(p, now, All(archives), archives[k])
  {
    forall k | 0 <= k < |archives| && k < p.floor ensures Claimed(p, now, All(archives), archives[k]) {
      RankIsIndex(archives, k);
    }
  }

  /** _keep_set: the names of the archives that some tier claims. */
  method KeepSet(p: Policy, now: real, archives: seq<Archive>) returns (keep: set<string>)
    requires NewestFirst(archives)
    ensures forall k | 0 <= k < |archives| :: archives[k].name in keep <==> Claimed(p, now, All(archives), archives[k])
  {
    hide KeepSoFar, WeeksSoFar, NewestFirst, Claimed, All, NewestOfWeek, Young, InWeeks;
    keep := set k | 0 <= k < |archives| && k < p.floor :: archives[k].name;
    FloorIsKept(p, now, archives, keep);
    var days: set<int>, weeks: set<int> := {}, {};
    NoWeeks(p, now, archives);
    for i := 0 to |archives|
      invariant KeepSoFar(p, now, archives, keep, i) && WeeksSoFar(p, now, archives, weeks, i)
    {
      var a := archives[i];
      ghost var before := keep;
      OneMoreWeek(p, now, archives, weeks, i);
      if Young(p, now, a) {
        keep := keep + {a.name};
        if p.day(a.mtime) !in days {
          days := days + {p.day(a.mtime)};
          keep := keep + {a.name};
        }
      }
      if InWeeks(p, now, a) {
        WeekSeenIffNewer(p, now, archives, i, weeks);
        if p.week(a.mtime) !in weeks {
          weeks := weeks + {p.week(a.mtime)};
          keep := keep + {a.name};
        }
      }
      ghost var claims := Young(p, now, a) || (InWeeks(p, now, a) && NewestOfWeek(p, All(archives), a));
      assert keep == if claims then before + {a.name} else before;
      KeepOneMore(p, now, archives, before, i, claims);
    }
    KeepIsClaimed(p, now, archives, keep);
  }

  lemma FloorIsKept(p: Policy, now: real, archives: seq<Archive>, keep: set<string>)
    requires NewestFirst(archives) && keep == set k | 0 <= k < |archives| && k < p.floor :: archives[k].name
    ensures KeepSoFar(p, now, archives, keep, 0)
  {}

  lemma NoWeeks(p: Policy, now: real, archives: seq<Archive>)
    ensures WeeksSoFar(p, now, archives, {}, 0)
  {}
}
