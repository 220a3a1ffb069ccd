/**
  The restore protocol of compactor/backup.py: an archive is staged beside the live paths,
  the live database, its sidecars and the live store are set aside, and the staged copies
  are renamed into place, with two rollback paths and an on-disk marker.

  The disk is three maps from names to identified items: the live paths, the staged working
  copies, and the shelf of everything set aside. Every primitive appends the resulting disk
  to a history, so a statement about every entry of the history is a statement about
  every point at which the process can be killed. Which calls fail, and what else happens
  meanwhile, is an arbitrary set of events.
  */
module RestoreProtocol {
  import opened Options

  /** What a restore may replace. The three middle parts are the database's sidecars. */
  datatype Part = Db | Journal | Wal | Shm | Store

  const SIDECARS: seq<Part> := [Journal, Wal, Shm]

  type Stamp = nat

  datatype Place = Quarantine | Sibling | Obstacle

  /** A name on the shelf. `Nested` is where a move lands when its target is a directory. */
  datatype Name =
    | Aside(place: Place, part: Part, stamp: Stamp, n: nat)
    | Nested(part: Part, moved: Name)

  datatype Origin = Original | FromArchive | Recreated

  /** `id` identifies the file or tree across renames. */
  datatype Item = Item(id: nat, origin: Origin)

  datatype Disk = Disk(
    live: map<Part, Item>,
    staged: map<(Part, Stamp), Item>,
    shelf: map<Name, Item>,
    markers: set<Stamp>,
    next: nat)

  datatype Archive = Archive(haveDb: bool, haveStore: bool)

  datatype Event =
    | StagingFails(part: Part)
    | MarkerWriteFails
    | MarkerRemovalFails
    | QuarantineFails(part: Part)
    | SiblingFails(part: Part)
    | SwapFails(part: Part)
    | ObstacleFails(part: Part)
    | MoveBackFails(part: Part)
    | IntegrityFails
    | StoreRecreated   // a service still running recreates the store after it was set aside

  /** Nothing goes wrong, except perhaps the rename of the staged store or writing the marker. */
  ghost predicate Quiet(events: set<Event>) { forall e | e in events :: e == SwapFails(Store) || e == MarkerWriteFails }

  datatype Outcome = Refused | StagingFailed | SetAsideFailed | RolledBack(clean: bool) | IntegrityFailed | Completed

  // ---------------------------------------------------------------------------------
  // What is promised of a disk `d` seen during a restore that began on disk `pre`
  // ---------------------------------------------------------------------------------

  ghost predicate OnDisk(d: Disk, item: Item) {
    item in d.live.Values || item in d.shelf.Values
  }

  /** Every original, live or set aside, still exists under some name. */
  ghost predicate Conserved(pre: Disk, d: Disk) {
    forall item | OnDisk(pre, item) :: OnDisk(d, item)
  }

  /** Nothing set aside before is touched, and nothing has landed inside a directory. */
  ghost predicate Undisturbed(pre: Disk, d: Disk) {
    && (forall n | n in pre.shelf :: n in d.shelf && d.shelf[n] == pre.shelf[n])
    && (forall n | n in d.shelf && n.Nested? :: n in pre.shelf)
  }

  /** The live part is a copy from an archive made since `pre`. */
  ghost predicate CopyAt(pre: Disk, d: Disk, p: Part) {
    p in d.live && d.live[p].origin == FromArchive && pre.next <= d.live[p].id
  }

  ghost predicate NoSidecars(d: Disk) {
    Journal !in d.live && Wal !in d.live && Shm !in d.live
  }

  ghost predicate Numbered(d: Disk) {
    forall p | p in d.live :: d.live[p].id < d.next
  }

  ghost predicate Safe(pre: Disk, d: Disk) {
    && Conserved(pre, d)
    && Undisturbed(pre, d)
    && (CopyAt(pre, d, Db) ==> NoSidecars(d))   // no old journal beside the new database
    && pre.next <= d.next && Numbered(d)
  }

  ghost predicate Same(m: map<Part, Item>, m': map<Part, Item>, p: Part) {
    (p in m <==> p in m') && (p in m ==> m[p] == m'[p])
  }

  ghost predicate SameBut(m: map<Part, Item>, m': map<Part, Item>, p: Part) {
    && (p != Db ==> Same(m, m', Db)) && (p != Store ==> Same(m, m', Store))
    && (p != Journal ==> Same(m, m', Journal)) && (p != Wal ==> Same(m, m', Wal)) && (p != Shm ==> Same(m, m', Shm))
  }

  lemma OnePartMoves(m: map<Part, Item>, p: Part, item: Item)
    ensures SameBut(m, m, p) && SameBut(m, m - {p}, p) && SameBut(m, m[p := item], p)
    ensures (m - {p})[p := item] == m[p := item]
  {}

  ghost predicate DbGroupUnchanged(pre: Disk, d: Disk) {
    Same(pre.live, d.live, Db) && Same(pre.live, d.live, Journal) && Same(pre.live, d.live, Wal) && Same(pre.live, d.live, Shm)
  }

  ghost predicate Unchanged(pre: Disk, d: Disk) {
    DbGroupUnchanged(pre, d) && Same(pre.live, d.live, Store)
  }

  /** Every part the archive covers is the archive's, the database without any sidecar;
      the parts it does not cover are as they were. */
  ghost predicate Restored(pre: Disk, d: Disk, a: Archive) {
    && (if a.haveDb then CopyAt(pre, d, Db) && NoSidecars(d) else DbGroupUnchanged(pre, d))
    && (if a.haveStore then CopyAt(pre, d, Store) else Same(pre.live, d.live, Store))
  }

  ghost predicate Whole(pre: Disk, d: Disk, a: Archive) {
    Unchanged(pre, d) || Restored(pre, d, a)
  }

  /** A state that is not whole has the marker beside it. */
  ghost predicate Atomic(pre: Disk, d: Disk, a: Archive) {
    d.markers == {} ==> Whole(pre, d, a)
  }

  ghost predicate Covers(a: Archive, p: Part) { if p == Store then a.haveStore else a.haveDb }

  /** The archive covers at most one half, and nothing of that half is live. */
  ghost predicate Lone(pre: Disk, a: Archive) {
    && !(a.haveDb && a.haveStore)
    && (a.haveDb ==> Db !in pre.live && NoSidecars(pre))
    && (a.haveStore ==> Store !in pre.live)
  }

  /** When no disk without a marker is a mixture, whatever else happens. With the marker, a live
      database must exist if both halves are replaced (without one, the store's rollback leaves the
      new database); without it, the restore must be a single rename. */
  ghost predicate Protected(pre: Disk, a: Archive, events: set<Event>) {
    if MarkerWriteFails in events then Lone(pre, a) else a.haveDb && a.haveStore ==> Db in pre.live
  }

  lemma ProtectedHasDatabase(pre: Disk, a: Archive, events: set<Event>)
    requires Protected(pre, a, events)
    ensures a.haveDb && a.haveStore ==> Db in pre.live
  {}

  // ---------------------------------------------------------------------------------
  // How a restore ends, from what goes wrong
  // ---------------------------------------------------------------------------------

  /** Neither place takes the part. */
  ghost predicate Blocked(events: set<Event>, p: Part) { QuarantineFails(p) in events && SiblingFails(p) in events }

  ghost predicate DbBlocked(pre: Disk, events: set<Event>) { exists p | p in pre.live :: p != Store && Blocked(events, p) }

  /** The database and its sidecars that were live can all be moved back. */
  ghost predicate DbReturns(pre: Disk, events: set<Event>) {
    forall p | p in pre.live && p != Store :: MoveBackFails(p) !in events
  }

  ghost predicate StoreReturns(pre: Disk, events: set<Event>) {
    Store in pre.live ==>
      MoveBackFails(Store) !in events && !(StoreRecreated in events && ObstacleFails(Store) in events)
  }

  ghost function DbOutcome(pre: Disk, events: set<Event>): Option<Outcome> {
    if DbBlocked(pre, events) then Some(SetAsideFailed)
    else if SwapFails(Db) in events then Some(RolledBack(DbReturns(pre, events)))
    else if IntegrityFails in events then Some(IntegrityFailed)
    else None
  }

  /** The old database comes back over the new one, which has to make way. */
  ghost function StoreOutcome(pre: Disk, a: Archive, events: set<Event>): Option<Outcome> {
    if Store in pre.live && Blocked(events, Store) then Some(SetAsideFailed)
    else if SwapFails(Store) in events || (StoreRecreated in events && Store in pre.live) then
      Some(RolledBack(&& StoreReturns(pre, events)
                      && (a.haveDb && Db in pre.live ==> DbReturns(pre, events) && ObstacleFails(Db) !in events)))
    else None
  }

  ghost function SwapOutcome(pre: Disk, a: Archive, events: set<Event>): (failed: Option<Outcome>)
    ensures failed.Some? ==> failed.value.SetAsideFailed? || failed.value.RolledBack? || failed.value.IntegrityFailed?
  {
    if a.haveDb && DbOutcome(pre, events).Some? then DbOutcome(pre, events)
    else if a.haveStore then StoreOutcome(pre, a, events)
    else None
  }

  ghost predicate Stages(pre: Disk, a: Archive, stamp: Stamp, events: set<Event>) {
    && (a.haveDb ==> StagingFails(Db) !in events)
    && (a.haveStore ==> StagingFails(Store) !in events && (Store, stamp) !in pre.staged)
  }

  ghost function OutcomeOf(pre: Disk, a: Archive, stamp: Stamp, events: set<Event>): Outcome {
    var failed := SwapOutcome(pre, a, events);
    if pre.markers != {} then Refused
    else if !Stages(pre, a, stamp, events) then StagingFailed
    else if failed.Some? then failed.value
    else Completed
  }

  /** What a rollback after the store's swap puts back. Of a database that has to make way for the old one,
      the sidecars follow only once the old one is back. */
  ghost predicate BackAfterStore(pre: Disk, a: Archive, events: set<Event>, p: Part) {
    if p == Store then StoreReturns(pre, events)
    else if !a.haveDb then true
    else Db in pre.live && ObstacleFails(Db) !in events && MoveBackFails(Db) !in events && MoveBackFails(p) !in events
  }

  /** A live part is back in its place after a rollback. */
  ghost predicate Back(pre: Disk, a: Archive, events: set<Event>, p: Part) {
    if a.haveDb && SwapFails(Db) in events then p == Store || MoveBackFails(p) !in events
    else BackAfterStore(pre, a, events, p)
  }

  /** The store's swap is rolled back where no live database existed: the new one stays. */
  ghost predicate Strands(pre: Disk, a: Archive, events: set<Event>) {
    a.haveDb && a.haveStore && Db !in pre.live && SwapFails(Db) !in events
  }

  ghost predicate InPlace(pre: Disk, d: Disk, p: Part) { p in pre.live ==> p in d.live && d.live[p] == pre.live[p] }

  /** The marker stays unless everything has landed or everything is back. */
  ghost function MarkersAfter(pre: Disk, stamp: Stamp, events: set<Event>, outcome: Outcome): set<Stamp> {
    if outcome == Refused then pre.markers
    else if outcome == StagingFailed || MarkerWriteFails in events then {}
    else if (outcome == Completed || outcome == RolledBack(true)) && MarkerRemovalFails !in events then {}
    else {stamp}
  }

  /** A swap that fails by itself, over a live database, is rolled back cleanly and leaves no marker. */
  lemma LoneFailureRollsBack(pre: Disk, a: Archive, stamp: Stamp, part: Part)
    requires pre.markers == {} && Db in pre.live && (Store, stamp) !in pre.staged
    requires (part == Db && a.haveDb) || (part == Store && a.haveStore)
    ensures OutcomeOf(pre, a, stamp, {SwapFails(part)}) == RolledBack(true)
    ensures !Strands(pre, a, {SwapFails(part)}) && MarkersAfter(pre, stamp, {SwapFails(part)}, RolledBack(true)) == {}
    ensures forall p :: Back(pre, a, {SwapFails(part)}, p)
  {}

  /** Working copies that were not there before are those of the run, of these parts. */
  ghost predicate CopiesOnly(pre: Disk, d: Disk, parts: set<Part>, stamp: Stamp) {
    forall k | k in d.staged :: (k.0 in parts && k.1 == stamp) || (k in pre.staged && d.staged[k] == pre.staged[k])
  }

  ghost predicate NoneStaged(d: Disk, a: Archive, stamp: Stamp) {
    (a.haveDb ==> (Db, stamp) !in d.staged) && (a.haveStore ==> (Store, stamp) !in d.staged)
  }

  lemma CopiesGone(pre: Disk, prepared: Disk, d: Disk, a: Archive, stamp: Stamp)
    requires CopiesOnly(pre, prepared, Covered(a), stamp) && CopiesOnly(prepared, d, {}, stamp) && NoneStaged(d, a, stamp)
    ensures CopiesOnly(pre, d, {}, stamp)
  {}

  lemma AllCopiesOld(d: Disk, stamp: Stamp)
    ensures CopiesOnly(d, d, {}, stamp)
  {}

  lemma SameCopies(pre: Disk, d: Disk, d': Disk, stamp: Stamp)
    requires d.staged == d'.staged
    ensures CopiesOnly(pre, d, {}, stamp) ==> CopiesOnly(pre, d', {}, stamp)
  {}

  ghost function Covered(a: Archive): set<Part> { (if a.haveDb then {Db} else {}) + if a.haveStore then {Store} else {} }

  ghost function Unmarked(markers: set<Stamp>, stamp: Stamp, events: set<Event>, done: bool): set<Stamp> {
    if done && MarkerRemovalFails !in events then markers - {stamp} else markers
  }

  lemma AllParts()
    ensures forall p: Part :: p == Db || p == Store || p in SIDECARS
    ensures Db !in SIDECARS && Store !in SIDECARS
  {
    forall p: Part ensures p == Db || p == Store || p in SIDECARS { PartIs(p); }
  }

  lemma PartIs(p: Part)
    ensures p == Db || p == Store || (exists j | 0 <= j < |SIDECARS| :: SIDECARS[j] == p)
    ensures forall j | 0 <= j < |SIDECARS| :: SIDECARS[j] != Db && SIDECARS[j] != Store
  {
    match p case Db => case Store =>
      case Journal => assert SIDECARS[0] == p; case Wal => assert SIDECARS[1] == p; case Shm => assert SIDECARS[2] == p;
  }

  // ---------------------------------------------------------------------------------
  // Bookkeeping: which live parts are currently set aside, and under which names
  // ---------------------------------------------------------------------------------

  ghost predicate Displaced(pre: Disk, d: Disk, asides: map<Part, Name>) {
    && (forall p | p in asides ::
          && p in pre.live && asides[p].Aside? && asides[p].part == p && asides[p] !in pre.shelf
          && asides[p] in d.shelf && d.shelf[asides[p]] == pre.live[p])
    && (forall p | p in pre.live && p !in asides :: p in d.live && d.live[p] == pre.live[p])
    && Undisturbed(pre, d)
  }

  lemma DisplacedConserves(pre: Disk, d: Disk, asides: map<Part, Name>)
    requires Displaced(pre, d, asides)
    ensures Conserved(pre, d)
  {
    forall item | OnDisk(pre, item) ensures OnDisk(d, item) {
      if p :| p in pre.live && pre.live[p] == item {
        if p in asides {
          assert d.shelf[asides[p]] == item;
        } else {
          assert d.live[p] == item;
        }
      } else {
        var n :| n in pre.shelf && pre.shelf[n] == item;
        assert d.shelf[n] == item;
      }
    }
  }

  /** Renames the live part to a name on the shelf. */
  function MovedAside(d: Disk, p: Part, n: Name): Disk
    requires p in d.live
  {
    d.(live := d.live - {p}, shelf := d.shelf[n := d.live[p]])
  }

  lemma MovedAsideDisplaced(pre: Disk, d: Disk, asides: map<Part, Name>, p: Part, n: Name)
    requires Displaced(pre, d, asides)
    requires p in d.live && n.Aside? && n !in d.shelf
    requires p in pre.live && p !in asides && n.part == p
    ensures Displaced(pre, MovedAside(d, p, n), asides[p := n])
  {
    ShelfGrows(pre, d, p, n);
    hide Undisturbed;
    var d', asides' := MovedAside(d, p, n), asides[p := n];
    assert n !in pre.shelf && d.live[p] == pre.live[p];
    forall q | q in asides'
      ensures q in pre.live && asides'[q].Aside? && asides'[q].part == q && asides'[q] !in pre.shelf
      ensures asides'[q] in d'.shelf && d'.shelf[asides'[q]] == pre.live[q]
    {
      if q != p { assert asides'[q] == asides[q] && asides[q] != n; }
    }
  }

  lemma ShelfGrows(pre: Disk, d: Disk, p: Part, n: Name)
    requires Undisturbed(pre, d) && p in d.live && n.Aside? && n !in d.shelf
    ensures Undisturbed(pre, MovedAside(d, p, n)) && n !in pre.shelf
  {}

  lemma ObstacleDisplaced(pre: Disk, d: Disk, asides: map<Part, Name>, p: Part, n: Name)
    requires Displaced(pre, d, asides)
    requires p in d.live && n.Aside? && n !in d.shelf && p in asides
    ensures Displaced(pre, MovedAside(d, p, n), asides)
  {
  }

  /** shutil.move from the shelf to a live path. A store is a directory, and a source moved
      onto an existing directory lands inside it; onto an existing file, it replaces it. */
  function MovedBack(d: Disk, n: Name, p: Part): Disk
    requires n in d.shelf
  {
    if p == Store && p in d.live then d.(shelf := (d.shelf - {n})[Nested(p, n) := d.shelf[n]])
    else d.(live := d.live[p := d.shelf[n]], shelf := d.shelf - {n})
  }

  lemma MovedBackDisplaced(pre: Disk, d: Disk, asides: map<Part, Name>, p: Part)
    requires Displaced(pre, d, asides) && p in asides && p !in d.live
    ensures Displaced(pre, MovedBack(d, asides[p], p), asides - {p})
    ensures MovedBack(d, asides[p], p).live == d.live[p := pre.live[p]]
  {
  }

  /** The name is one of a part's, at its place and under the run's stamp. */
  ghost predicate IsAside(name: Name, place: Place, part: Part, stamp: Stamp) {
    name.Aside? && name.place == place && name.part == part && name.stamp == stamp
  }

  /** The part is as before or absent: nothing new has landed at its live path. */
  ghost predicate NothingNew(pre: Disk, d: Disk, p: Part) {
    p in d.live ==> p in pre.live && d.live[p] == pre.live[p]
  }

  /** One restore in flight: the disk it began on, and whether its marker is meant to cover
      every state that is not whole. */
  datatype Run = Run(pre: Disk, a: Archive, marked: bool)

  ghost predicate Good(r: Run, d: Disk) {
    Safe(r.pre, d) && (r.marked ==> Atomic(r.pre, d, r.a))
  }

  /** One restore among several: whether it is killed at some state of its history, and whether
      markers are cleared by hand before the next one. */
  datatype Attempt =
    Attempt(archive: Archive, stamp: Stamp, events: set<Event>, killedAt: Option<nat>, clearedByHand: bool)

  /** `d'` is what one whole restore, of whatever archive, makes of `d`. */
  ghost predicate WholeRestore(d: Disk, d': Disk) {
    || Restored(d, d', Archive(true, true)) || Restored(d, d', Archive(true, false))
    || Restored(d, d', Archive(false, true)) || Restored(d, d', Archive(false, false))
  }

  ghost predicate WholeRestores(commits: seq<Disk>) {
    forall k {:trigger commits[k]} | 0 < k < |commits| :: WholeRestore(commits[k - 1], commits[k])
  }

  /** A disk was seen with these markers that is neither as before nor restored. */
  ghost predicate SeenMixed(history: seq<Disk>, pre: Disk, a: Archive, markers: set<Stamp>) {
    exists i :: 0 <= i < |history| && history[i].markers == markers && !Whole(pre, history[i], a)
  }

  lemma SeenStays(history: seq<Disk>, longer: seq<Disk>, pre: Disk, a: Archive, markers: set<Stamp>)
    requires history <= longer
    ensures SeenMixed(history, pre, a, markers) ==> SeenMixed(longer, pre, a, markers)
  {
    hide Whole;
  }

  lemma SeenNow(history: seq<Disk>, d: Disk, pre: Disk, a: Archive)
    requires history != [] && history[|history| - 1] == d && !Whole(pre, d, a)
    ensures SeenMixed(history, pre, a, d.markers)
  {
    hide Whole;
  }

  /** The new database beside the old store. */
  lemma NewDatabaseOldStore(pre: Disk, d: Disk, a: Archive)
    requires Numbered(pre) && CopyAt(pre, d, Db) && Same(pre.live, d.live, Store) && a.haveStore
    ensures !Whole(pre, d, a)
  {}

  /** A live half has left its place and nothing has taken it. */
  lemma HalfIsGone(pre: Disk, d: Disk, a: Archive)
    requires (a.haveDb && !(Db !in pre.live && NoSidecars(pre)) && Db !in d.live && NoSidecars(d))
             || (a.haveStore && Store in pre.live && Store !in d.live)
    ensures !Whole(pre, d, a)
  {}

  lemma RestoredByLive(pre: Disk, d: Disk, d': Disk, a: Archive)
    requires d.live == d'.live
    ensures Restored(pre, d, a) ==> Restored(pre, d', a)
  {}

  lemma SameLive(pre: Disk, d: Disk)
    ensures pre.live == d.live ==> Unchanged(pre, d)
  {}

  lemma SameEverywhere(pre: Disk, d: Disk)
    ensures Unchanged(pre, d) <==> pre.live == d.live
  {
    if Unchanged(pre, d) {
      forall p: Part ensures Same(pre.live, d.live, p) {
        match p case Db => case Journal => case Wal => case Shm => case Store =>
      }
      assert forall p :: p in pre.live ==> Same(pre.live, d.live, p);
      assert forall p :: p in d.live ==> Same(pre.live, d.live, p);
    }
  }

  /** What one attempt, perhaps killed, does to the record of whole restores. */
  function Committed(commits: seq<Disk>, before: Disk, d: Disk): seq<Disk> {
    if before.markers == {} && d.markers == {} && d.live != before.live then commits + [d] else commits
  }

  lemma CommittedIsWhole(commits: seq<Disk>, before: Disk, d: Disk, a: Archive)
    requires commits != [] && WholeRestores(commits) && commits[|commits| - 1].next <= before.next <= d.next
    requires before.markers == {} ==>
               Db in before.live && commits[|commits| - 1].live == before.live && Atomic(before, d, a)
    requires before.markers != {} ==> d == before
    ensures WholeRestores(Committed(commits, before, d)) && commits <= Committed(commits, before, d)
    ensures var c := Committed(commits, before, d);
            c[|c| - 1].next <= d.next && (d.markers == {} ==> Db in d.live && d.live == c[|c| - 1].live)
  {
    SameEverywhere(before, d);
    if before.markers == {} && d.markers == {} && d.live != before.live {
      assert a == Archive(a.haveDb, a.haveStore);
      assert WholeRestore(commits[|commits| - 1], d);
    }
  }

  class Volume {
    var disk: Disk
    var history: seq<Disk>   // every disk the current restore has left behind, oldest first

    ghost predicate Running(r: Run, asides: map<Part, Name>) reads this {
      && r.pre.next <= disk.next
      && Numbered(r.pre) && Numbered(disk)
      && Displaced(r.pre, disk, asides) && (forall p | p in asides :: Covers(r.a, p))
      && (CopyAt(r.pre, disk, Db) ==> NoSidecars(disk))
      && history != [] && history[0] == r.pre && history[|history| - 1] == disk
      && (forall i | 0 <= i < |history| :: Good(r, history[i]))
    }

    ghost predicate Marked(r: Run) reads this { r.marked ==> disk.markers != {} || Lone(r.pre, r.a) }

    /** One atomic change of the disk, observable by whoever finds it after a kill. */
    method Step(d: Disk, ghost r: Run, ghost asides: map<Part, Name>, ghost asides': map<Part, Name>)
      requires Running(r, asides)
      requires r.pre.next <= d.next && Numbered(d) && Displaced(r.pre, d, asides')
      requires forall p | p in asides' :: Covers(r.a, p)
      requires (CopyAt(r.pre, d, Db) ==> NoSidecars(d))
      requires r.marked ==> Atomic(r.pre, d, r.a)
      modifies this
      ensures old(history) <= history
      ensures disk == d && Running(r, asides')
    {
      DisplacedConserves(r.pre, d, asides');
      disk, history := d, history + [d];
    }

    /** _free_name: the first of `p`, `p-1`, `p-2`, ... that does not exist. */
    method FreeName(place: Place, part: Part, stamp: Stamp) returns (name: Name)
      ensures name !in disk.shelf
      ensures name.Aside? && name.place == place && name.part == part && name.stamp == stamp
      ensures forall m | 0 <= m < name.n :: Aside(place, part, stamp, m) in disk.shelf
    {
      var n := 0;
      ghost var taken: set<Name> := {};
      while Aside(place, part, stamp, n) in disk.shelf
        invariant forall m | 0 <= m < n :: Aside(place, part, stamp, m) in disk.shelf
        invariant taken <= disk.shelf.Keys && |taken| == n
        invariant forall p | p in taken :: p.Aside? && p.n < n
        decreases |disk.shelf.Keys| - n
      {
        taken := taken + {Aside(place, part, stamp, n)};
        assert |disk.shelf.Keys - taken| == |disk.shelf.Keys| - |taken|;
        n := n + 1;
      }
      name := Aside(place, part, stamp, n);
    }

    /** _quarantine_aside: to the quarantine, or beside the target if that fails; None when
        both moves fail. */
    method SetAside(part: Part, stamp: Stamp, events: set<Event>, ghost r: Run, ghost asides: map<Part, Name>)
      returns (name: Option<Name>)
      requires Running(r, asides) && Marked(r)
      requires part !in asides && part in r.pre.live && Covers(r.a, part)
      modifies this
      ensures old(history) <= history
      ensures name.None? <==> QuarantineFails(part) in events && SiblingFails(part) in events
      ensures name.None? ==> disk == old(disk) && Running(r, asides)
      ensures name.Some? ==> name.value !in old(disk).shelf && Running(r, asides[part := name.value])
      ensures name.Some? ==> disk == old(disk).(live := old(disk).live - {part},
                                                shelf := old(disk).shelf[name.value := old(disk).live[part]])
      ensures name.Some? ==> IsAside(name.value, if QuarantineFails(part) in events then Sibling else Quarantine, part, stamp)
    {
      var place := if QuarantineFails(part) in events then Sibling else Quarantine;
      var free := FreeName(place, part, stamp);
      if QuarantineFails(part) in events && SiblingFails(part) in events {
        return None;
      }
      name := Some(free);
      MovedAsideDisplaced(r.pre, disk, asides, part, free);
      Step(MovedAside(disk, part, free), r, asides, asides[part := free]);
    }

    /** shutil.move back onto the live path. A store is a directory, and moving onto one that
        exists would land inside it. */
    method MoveBack(part: Part, name: Name, events: set<Event>, ghost r: Run, ghost asides: map<Part, Name>)
      returns (ok: bool)
      requires Running(r, asides) && Marked(r)
      requires part in asides && asides[part] == name && part !in disk.live
      requires part in SIDECARS ==> !CopyAt(r.pre, disk, Db)
      modifies this
      ensures old(history) <= history
      ensures ok <==> MoveBackFails(part) !in events
      ensures !ok ==> disk == old(disk) && Running(r, asides)
      ensures ok ==> Running(r, asides - {part})
      ensures ok ==> disk == old(disk).(live := old(disk).live[part := r.pre.live[part]], shelf := old(disk).shelf - {name})
    {
      if MoveBackFails(part) in events {
        return false;
      }
      ok := true;
      MovedBackDisplaced(r.pre, disk, asides, part);
      Step(MovedBack(disk, name, part), r, asides, asides - {part});
    }

    /** Renames aside whatever has come to occupy the live path of a part that is set aside. */
    method ClearObstacle(part: Part, stamp: Stamp, events: set<Event>, ghost r: Run, ghost asides: map<Part, Name>)
      returns (ok: bool)
      requires Running(r, asides) && Marked(r)
      requires part in asides
      modifies this
      ensures old(history) <= history
      ensures Running(r, asides)
      ensures ok ==> disk == old(disk).(live := old(disk).live - {part}, shelf := disk.shelf)
      ensures ok <==> !(part in old(disk).live && ObstacleFails(part) in events)
      ensures !ok || part !in old(disk).live ==> disk == old(disk)
      ensures ok && part in old(disk).live ==> exists name | IsAside(name, Obstacle, part, stamp) ::
                name !in old(disk).shelf && disk.shelf == old(disk).shelf[name := old(disk).live[part]]
    {
      ok := true;
      if part in disk.live {
        var obstacle := FreeName(Obstacle, part, stamp);
        if ObstacleFails(part) in events {
          return false;
        }
        ObstacleDisplaced(r.pre, disk, asides, part, obstacle);
        Step(MovedAside(disk, part, obstacle), r, asides, asides);
      }
    }

    /** _move_back_no_nest: whatever occupies the live path is renamed aside first. */
    method MoveBackNoNest(part: Part, name: Name, stamp: Stamp, events: set<Event>, ghost r: Run,
                          ghost asides: map<Part, Name>)
      returns (ok: bool)
      requires Running(r, asides) && Marked(r)
      requires part in asides && asides[part] == name
      requires part in SIDECARS ==> !CopyAt(r.pre, disk, Db)
      modifies this
      ensures old(history) <= history
      ensures ok ==> Running(r, asides - {part})
      ensures ok ==> disk == old(disk).(live := old(disk).live[part := r.pre.live[part]], shelf := disk.shelf)
      ensures !ok ==> Running(r, asides)
      ensures ok <==> MoveBackFails(part) !in events && !(part in old(disk).live && ObstacleFails(part) in events)
      ensures !ok ==> disk == old(disk).(live := disk.live, shelf := disk.shelf)
      ensures SameBut(old(disk).live, disk.live, part)
      ensures !ok && part !in old(disk).live ==> disk == old(disk)
    {
      hide Good, Displaced, Running, Lone, SameBut;
      Standing(r, asides);
      OnePartMoves(disk.live, part, r.pre.live[part]);
      ok := ClearObstacle(part, stamp, events, r, asides);
      if ok {
        ok := MoveBack(part, name, events, r, asides);
      }
    }

    /** Removing the marker may itself fail, which leaves it in place. */
    method RemoveMarker(stamp: Stamp, events: set<Event>, ghost r: Run, ghost asides: map<Part, Name>)
      requires Running(r, asides) && (r.marked ==> Whole(r.pre, disk, r.a))
      modifies this
      ensures old(history) <= history
      ensures Running(r, asides)
      ensures disk == old(disk).(markers := if MarkerRemovalFails in events then old(disk).markers else old(disk).markers - {stamp})
    {
      if MarkerRemovalFails !in events {
        Step(disk.(markers := disk.markers - {stamp}), r, asides, asides);
      }
    }

    method StageOne(part: Part, stamp: Stamp, ghost r: Run)
      requires Running(r, map[]) && Unchanged(r.pre, disk)
      modifies this
      ensures old(history) <= history
      ensures Running(r, map[]) && IsStaged(r, part, stamp)
      ensures disk == old(disk).(staged := old(disk).staged[(part, stamp) := Item(old(disk).next, FromArchive)],
                                 next := old(disk).next + 1)
    {
      hide Good;
      Step(disk.(staged := disk.staged[(part, stamp) := Item(disk.next, FromArchive)], next := disk.next + 1), r,
           map[], map[]);
    }

    /** Both halves are copied before anything live moves; any failure discards the copies. */
    method Stage(a: Archive, stamp: Stamp, events: set<Event>, ghost r: Run) returns (ok: bool)
      requires Running(r, map[]) && r.a == a && Unchanged(r.pre, disk)
      modifies this
      ensures old(history) <= history
      ensures Running(r, map[])
      ensures disk == old(disk).(staged := disk.staged, next := disk.next)
      ensures ok && a.haveDb ==> IsStaged(r, Db, stamp)
      ensures ok && a.haveStore ==> IsStaged(r, Store, stamp)
      ensures ok <==> Stages(old(disk), a, stamp, events)
      ensures CopiesOnly(old(disk), disk, if ok then Covered(a) else {}, stamp)
    {
      hide Good, Displaced, Running;
      ok := true;
      if a.haveDb {
        ok := StagingFails(Db) !in events;
        if ok {
          StageOne(Db, stamp, r);
        }
      }
      if ok && a.haveStore {
        ok := StagingFails(Store) !in events && (Store, stamp) !in disk.staged;
        if ok {
          StageOne(Store, stamp, r);
        }
      }
      if !ok {
        Discard({(Db, stamp), (Store, stamp)}, r, map[]);
      }
    }

    ghost predicate IsStaged(r: Run, p: Part, stamp: Stamp) reads this {
      (p, stamp) in disk.staged && disk.staged[(p, stamp)].origin == FromArchive && r.pre.next <= disk.staged[(p, stamp)].id < disk.next
    }

    // -------------------------------------------------------------------------------
    // The database half
    // -------------------------------------------------------------------------------

    /** Sets one part aside if it is there at all. */
    method SetAsideIfThere(part: Part, stamp: Stamp, events: set<Event>, ghost r: Run, asides: map<Part, Name>)
      returns (ok: bool, asides': map<Part, Name>)
      requires Running(r, asides) && Marked(r)
      requires part !in asides && NothingNew(r.pre, disk, part) && Covers(r.a, part)
      modifies this
      ensures old(history) <= history
      ensures Running(r, asides')
      ensures ok ==> disk == old(disk).(live := old(disk).live - {part}, shelf := disk.shelf)
      ensures !ok ==> disk == old(disk)
      ensures ok <==> !(part in r.pre.live && Blocked(events, part))
      ensures asides.Keys <= asides'.Keys <= asides.Keys + {part}
      ensures ok ==> (part in asides' <==> part in r.pre.live)
    {
      Standing(r, asides);
      ok, asides' := true, asides;
      if part in disk.live {
        var name := SetAside(part, stamp, events, r, asides);
        ok := name.Some?;
        if ok {
          asides' := asides[part := name.value];
        }
      }
    }

    /** Every part of the database group has left its live path and nothing else has moved. */
    ghost predicate DbGroupAside(r: Run, asides: map<Part, Name>) reads this {
      && Running(r, asides) && Same(r.pre.live, disk.live, Store)
      && Store !in asides && (forall p | p != Store :: p in asides <==> p in r.pre.live)
      && Db !in disk.live && NoSidecars(disk)
    }

    lemma MixedNow(r: Run, asides: map<Part, Name>)
      requires Running(r, asides) && !Whole(r.pre, disk, r.a)
      ensures SeenMixed(history, r.pre, r.a, disk.markers)
    {
      SeenNow(history, disk, r.pre, r.a);
    }

    lemma PartBlocked(pre: Disk, events: set<Event>, p: Part)
      requires p in pre.live && p != Store && Blocked(events, p)
      ensures DbBlocked(pre, events)
    {}

    lemma SameIsNotNew(pre: Disk, d: Disk)
      ensures forall p | Same(pre.live, d.live, p) :: NothingNew(pre, d, p)
    {}

    lemma GroupIsAside(pre: Disk, asides: map<Part, Name>, events: set<Event>)
      requires !(Db in pre.live && Blocked(events, Db)) && (Db in asides <==> Db in pre.live)
      requires forall j | 0 <= j < |SIDECARS| ::
                 && !(SIDECARS[j] in pre.live && Blocked(events, SIDECARS[j]))
                 && (SIDECARS[j] in asides <==> SIDECARS[j] in pre.live)
      ensures !DbBlocked(pre, events) && forall p | p != Store :: p in asides <==> p in pre.live
    {
      hide Blocked;
      forall p: Part | p != Store ensures (p in asides <==> p in pre.live) && !(p in pre.live && Blocked(events, p)) {
        PartIs(p);
      }
    }

    /** Sets the database aside, then each of its sidecars. */
    method SetDatabaseAside(stamp: Stamp, events: set<Event>, ghost r: Run) returns (ok: bool, asides: map<Part, Name>)
      requires Running(r, map[]) && Unchanged(r.pre, disk) && Marked(r) && r.a.haveDb
      modifies this
      ensures old(history) <= history
      ensures Running(r, asides)
      ensures disk == old(disk).(live := disk.live, shelf := disk.shelf)
      ensures ok ==> DbGroupAside(r, asides)
      ensures ok && !(Db !in r.pre.live && NoSidecars(r.pre)) ==> SeenMixed(history, r.pre, r.a, disk.markers)
      ensures ok <==> !DbBlocked(r.pre, events)
    {
      hide Good, Displaced, Running, SeenMixed, Blocked, CopyAt, DbBlocked, NothingNew;
      SameIsNotNew(r.pre, disk);
      ok, asides := SetAsideIfThere(Db, stamp, events, r, map[]);
      if !ok { PartBlocked(r.pre, events, Db); }
      var i := 0;
      while ok && i < |SIDECARS|
        invariant 0 <= i <= |SIDECARS|
        invariant old(history) <= history
        invariant Running(r, asides)
        invariant disk == old(disk).(live := disk.live, shelf := disk.shelf)
        invariant Same(r.pre.live, disk.live, Store) && Store !in asides
        invariant forall j | i <= j < |SIDECARS| :: Same(r.pre.live, disk.live, SIDECARS[j]) && SIDECARS[j] !in asides
        invariant ok ==> Db !in disk.live && (Db in asides <==> Db in r.pre.live)
        invariant ok ==> forall j | 0 <= j < i :: SIDECARS[j] !in disk.live
        invariant ok ==> !(Db in r.pre.live && Blocked(events, Db))
        invariant ok ==> forall j | 0 <= j < i ::
                    && !(SIDECARS[j] in r.pre.live && Blocked(events, SIDECARS[j]))
                    && (SIDECARS[j] in asides <==> SIDECARS[j] in r.pre.live)
        invariant !ok ==> DbBlocked(r.pre, events)
      {
        SameIsNotNew(r.pre, disk);
        ok, asides := SetAsideIfThere(SIDECARS[i], stamp, events, r, asides);
        if !ok { PartBlocked(r.pre, events, SIDECARS[i]); }
        i := i + 1;
      }
      if ok {
        assert SIDECARS[0] !in disk.live && SIDECARS[1] !in disk.live && SIDECARS[2] !in disk.live;
        GroupIsAside(r.pre, asides, events);
        if !(Db !in r.pre.live && NoSidecars(r.pre)) {
          HalfIsGone(r.pre, disk, r.a);
          MixedNow(r, asides);
        }
      }
    }

    /** os.replace of a staged copy onto the live path of a part that is set aside, or that was
        never there. */
    method SwapIn(part: Part, stamp: Stamp, ghost r: Run, ghost asides: map<Part, Name>)
      requires Running(r, asides) && Marked(r)
      requires part in asides || part !in r.pre.live
      requires Covers(r.a, part) && (Lone(r.pre, r.a) ==> Unchanged(r.pre, disk))
      requires part !in SIDECARS && IsStaged(r, part, stamp) && (part == Db ==> NoSidecars(disk))
      modifies this
      ensures old(history) <= history
      ensures Running(r, asides)
      ensures disk == old(disk).(live := old(disk).live[part := old(disk).staged[(part, stamp)]],
                                 staged := old(disk).staged - {(part, stamp)})
    {
      Step(disk.(live := disk.live[part := disk.staged[(part, stamp)]], staged := disk.staged - {(part, stamp)}), r,
           asides, asides);
    }

    /** Not a step of the restore: a service that is still running writes to the store again. */
    method RecreateStore(ghost r: Run, ghost asides: map<Part, Name>)
      requires Running(r, asides) && Marked(r) && Store in asides
      modifies this
      ensures old(history) <= history
      ensures Running(r, asides)
      ensures disk == old(disk).(live := old(disk).live[Store := Item(old(disk).next, Recreated)], next := old(disk).next + 1)
    {
      Step(disk.(live := disk.live[Store := Item(disk.next, Recreated)], next := disk.next + 1), r, asides, asides);
    }

    /** Working copies are removed. */
    method Discard(names: set<(Part, Stamp)>, ghost r: Run, ghost asides: map<Part, Name>)
      requires Running(r, asides)
      modifies this
      ensures old(history) <= history
      ensures Running(r, asides)
      ensures disk == old(disk).(staged := old(disk).staged - names)
    {
      Step(disk.(staged := disk.staged - names), r, asides, asides);
    }

    /** Puts one sidecar back, by a bare move or by one that makes way first. */
    method ReturnSidecar(part: Part, name: Name, makeWay: bool, stamp: Stamp, events: set<Event>, ghost r: Run,
                         ghost left: map<Part, Name>)
      returns (ok: bool)
      requires Running(r, left) && Marked(r)
      requires part in SIDECARS && part in left && left[part] == name
      requires part !in disk.live && !CopyAt(r.pre, disk, Db)
      modifies this
      ensures old(history) <= history
      ensures Running(r, if ok then left - {part} else left) && part in r.pre.live
      ensures ok ==> disk == old(disk).(live := old(disk).live[part := r.pre.live[part]], shelf := disk.shelf)
      ensures !ok ==> disk == old(disk)
      ensures ok <==> MoveBackFails(part) !in events
    {
      if makeWay {
        ok := MoveBackNoNest(part, name, stamp, events, r, left);
      } else {
        ok := MoveBack(part, name, events, r, left);
      }
    }

    lemma AbsentIsNotNew(pre: Disk, d: Disk, p: Part)
      ensures p !in d.live ==> NothingNew(pre, d, p)
    {}

    lemma NoSidecarsAre(d: Disk)
      requires NoSidecars(d)
      ensures forall j | 0 <= j < |SIDECARS| :: SIDECARS[j] !in d.live
    {}

    lemma SameAsItself(d: Disk)
      ensures Same(d.live, d.live, Db) && Same(d.live, d.live, Store)
    {}

    /** A sidecar that is back in its place disturbs nothing else. */
    lemma OneSidecarBack(pre: Disk, first: Disk, d: Disk, d': Disk, i: nat)
      requires i < |SIDECARS| && SIDECARS[i] in pre.live && d'.live == d.live[SIDECARS[i] := pre.live[SIDECARS[i]]]
      ensures forall j | 0 <= j < i :: SIDECARS[j] !in d.live ==> SIDECARS[j] !in d'.live
      ensures forall j | i < j < |SIDECARS| ::
                && (NothingNew(pre, d, SIDECARS[j]) ==> NothingNew(pre, d', SIDECARS[j]))
                && (InPlace(pre, d, SIDECARS[j]) ==> InPlace(pre, d', SIDECARS[j]))
      ensures NothingNew(pre, d', SIDECARS[i]) && InPlace(pre, d', SIDECARS[i])
      ensures Same(first.live, d.live, Db) ==> Same(first.live, d'.live, Db)
      ensures Same(first.live, d.live, Store) ==> Same(first.live, d'.live, Store)
      ensures CopyAt(pre, d, Db) <==> CopyAt(pre, d', Db)
    {}

    /** Puts the sidecars back beside the database, last one first. */
    method ReturnSidecars(makeWay: bool, stamp: Stamp, events: set<Event>, ghost r: Run, asides: map<Part, Name>,
                          ghost left: map<Part, Name>)
      returns (ok: bool, ghost left': map<Part, Name>)
      requires Running(r, left) && Marked(r)
      requires forall p | p in SIDECARS :: (p in asides <==> p in left) && (p in left ==> asides[p] == left[p])
      requires NoSidecars(disk) && !CopyAt(r.pre, disk, Db)
      modifies this
      ensures old(history) <= history
      ensures Running(r, left')
      ensures disk == old(disk).(live := disk.live, shelf := disk.shelf)
      ensures Same(old(disk).live, disk.live, Db) && Same(old(disk).live, disk.live, Store)
      ensures left'.Keys <= left.Keys
      ensures ok ==> Journal !in left' && Wal !in left' && Shm !in left'
      ensures ok ==> NothingNew(r.pre, disk, Journal) && NothingNew(r.pre, disk, Wal) && NothingNew(r.pre, disk, Shm)
      ensures ok <==> forall j | 0 <= j < |SIDECARS| && SIDECARS[j] in asides :: MoveBackFails(SIDECARS[j]) !in events
      ensures forall j | 0 <= j < |SIDECARS| && SIDECARS[j] in asides && MoveBackFails(SIDECARS[j]) !in events ::
                InPlace(r.pre, disk, SIDECARS[j])
    {
      hide Good, Displaced, Running, NothingNew, InPlace, Same, CopyAt, NoSidecars;
      ok, left' := true, left;
      NoSidecarsAre(disk);
      SameAsItself(disk);
      var i := |SIDECARS|;
      while i > 0
        invariant 0 <= i <= |SIDECARS| && old(history) <= history
        invariant Running(r, left') && left'.Keys <= left.Keys
        invariant disk == old(disk).(live := disk.live, shelf := disk.shelf)
        invariant Same(old(disk).live, disk.live, Db) && Same(old(disk).live, disk.live, Store)
        invariant !CopyAt(r.pre, disk, Db)
        invariant forall j | 0 <= j < i :: SIDECARS[j] !in disk.live
        invariant forall j | 0 <= j < i :: SIDECARS[j] in asides <==> SIDECARS[j] in left'
        invariant forall j | 0 <= j < i && SIDECARS[j] in left' :: asides[SIDECARS[j]] == left'[SIDECARS[j]]
        invariant ok ==> forall j | i <= j < |SIDECARS| :: SIDECARS[j] !in left' && NothingNew(r.pre, disk, SIDECARS[j])
        invariant ok <==> forall j | i <= j < |SIDECARS| && SIDECARS[j] in asides :: MoveBackFails(SIDECARS[j]) !in events
        invariant forall j | i <= j < |SIDECARS| && SIDECARS[j] in asides && MoveBackFails(SIDECARS[j]) !in events ::
                    InPlace(r.pre, disk, SIDECARS[j])
      {
        i := i - 1;
        ghost var before := disk;
        AbsentIsNotNew(r.pre, disk, SIDECARS[i]);
        if SIDECARS[i] in asides {
          var back := ReturnSidecar(SIDECARS[i], asides[SIDECARS[i]], makeWay, stamp, events, r, left');
          if back { OneSidecarBack(r.pre, old(disk), before, disk, i); }
          ok := ok && back;
          left' := if back then left' - {SIDECARS[i]} else left';
        }
      }
      if ok {
        assert forall j | 0 <= j < 3 :: SIDECARS[j] !in left' && NothingNew(r.pre, disk, SIDECARS[j]);
        assert SIDECARS[0] !in left' && SIDECARS[1] !in left' && SIDECARS[2] !in left';
      }
    }

    /** The handler of a failed database swap: the database back first, then its sidecars. */
    method RollBackDatabaseSwap(stamp: Stamp, events: set<Event>, ghost r: Run, asides: map<Part, Name>)
      returns (ok: bool, ghost left: map<Part, Name>)
      requires DbGroupAside(r, asides) && Marked(r)
      modifies this
      ensures old(history) <= history
      ensures Running(r, left)
      ensures disk == old(disk).(live := disk.live, shelf := disk.shelf,
                                 staged := old(disk).staged - {(Db, stamp), (Store, stamp)})
      ensures ok <==> DbReturns(r.pre, events)
      ensures ok ==> Unchanged(r.pre, disk)
      ensures forall p | p == Store || MoveBackFails(p) !in events :: InPlace(r.pre, disk, p)
    {
      hide Good, Displaced, Running, DbReturns, InPlace, Same, NoSidecars, NothingNew, Unchanged, CopyAt, Covers, DbGroupAside;
      ok, left := true, asides;
      GroupStands(r, asides);
      if Db in asides {
        ok := MoveBack(Db, asides[Db], events, r, left);
        left := if ok then left - {Db} else left;
      }
      ghost var moved, movedDb := disk, ok;
      PutBack(r.pre, old(disk), moved, events, ok);
      var back;
      back, left := ReturnSidecars(false, stamp, events, r, asides, left);
      ok := ok && back;
      ghost var restored := disk;
      Discard({(Db, stamp), (Store, stamp)}, r, left);
      DbReturnsIs(r.pre, events);
      DatabaseRolledBack(r.pre, events, moved, restored, disk, movedDb && back);
    }

    /** The parts that are off their live paths, one by one. */
    lemma GroupStands(r: Run, asides: map<Part, Name>)
      requires DbGroupAside(r, asides)
      ensures Running(r, asides) && Same(r.pre.live, disk.live, Store) && NoSidecars(disk) && !CopyAt(r.pre, disk, Db)
      ensures Db !in disk.live && (Db in asides <==> Db in r.pre.live)
      ensures forall p | p in SIDECARS :: p in asides <==> p in r.pre.live
      ensures forall j | 0 <= j < |SIDECARS| :: SIDECARS[j] in asides <==> SIDECARS[j] in r.pre.live
    {
      AllParts();
      PartIs(Db);
    }

    /** The database's own move, made or not. */
    lemma PutBack(pre: Disk, d: Disk, moved: Disk, events: set<Event>, ok: bool)
      requires NoSidecars(d) && Db !in d.live && !CopyAt(pre, d, Db) && Same(pre.live, d.live, Store)
      requires if Db in pre.live && ok then moved.live == d.live[Db := pre.live[Db]] else moved.live == d.live
      requires Numbered(pre)
      ensures NoSidecars(moved) && !CopyAt(pre, moved, Db) && Same(pre.live, moved.live, Store)
      ensures ok ==> Same(pre.live, moved.live, Db)
    {}

    /** With the database dealt with and each sidecar's own move made or not. */
    lemma DatabaseRolledBack(pre: Disk, events: set<Event>, moved: Disk, restored: Disk, d: Disk, ok: bool)
      requires Same(pre.live, moved.live, Store) && Same(moved.live, restored.live, Db) && Same(moved.live, restored.live, Store)
      requires d.live == restored.live
      requires Db in pre.live && MoveBackFails(Db) !in events ==> Same(pre.live, moved.live, Db)
      requires forall j | 0 <= j < |SIDECARS| && SIDECARS[j] in pre.live && MoveBackFails(SIDECARS[j]) !in events ::
                 InPlace(pre, restored, SIDECARS[j])
      requires ok ==>
                 && Same(pre.live, moved.live, Db) && DbReturns(pre, events)
                 && NothingNew(pre, restored, Journal) && NothingNew(pre, restored, Wal) && NothingNew(pre, restored, Shm)
      ensures forall p | p == Store || MoveBackFails(p) !in events :: InPlace(pre, d, p)
      ensures ok ==> Unchanged(pre, d)
    {
      forall p | p == Store || MoveBackFails(p) !in events ensures InPlace(pre, d, p) { PartIs(p); }
      assert forall j | 0 <= j < |SIDECARS| && ok :: InPlace(pre, restored, SIDECARS[j]) by { SidecarsInPlace(pre, restored, events, ok); }
      assert SIDECARS[0] == Journal && SIDECARS[1] == Wal && SIDECARS[2] == Shm;
    }

    lemma SidecarsInPlace(pre: Disk, d: Disk, events: set<Event>, ok: bool)
      requires ok ==> DbReturns(pre, events)
      requires forall j | 0 <= j < |SIDECARS| && SIDECARS[j] in pre.live && MoveBackFails(SIDECARS[j]) !in events ::
                 InPlace(pre, d, SIDECARS[j])
      ensures forall j | 0 <= j < |SIDECARS| && ok :: InPlace(pre, d, SIDECARS[j])
    {
      forall j | 0 <= j < |SIDECARS| && ok ensures InPlace(pre, d, SIDECARS[j]) { PartIs(SIDECARS[j]); }
    }

    lemma DbReturnsIs(pre: Disk, events: set<Event>)
      ensures DbReturns(pre, events) <==>
              && (Db in pre.live ==> MoveBackFails(Db) !in events)
              && forall j | 0 <= j < |SIDECARS| && SIDECARS[j] in pre.live :: MoveBackFails(SIDECARS[j]) !in events
    {
      if (Db in pre.live ==> MoveBackFails(Db) !in events)
         && forall j | 0 <= j < |SIDECARS| && SIDECARS[j] in pre.live :: MoveBackFails(SIDECARS[j]) !in events
      {
        forall p | p in pre.live && p != Store ensures MoveBackFails(p) !in events { PartIs(p); }
      }
      PartIs(Db);
    }

    /** Replaces the live database. None when it landed and passed its integrity check. */
    method SwapDatabase(a: Archive, stamp: Stamp, events: set<Event>, ghost r: Run)
      returns (failed: Option<Outcome>, asides: map<Part, Name>, ghost left: map<Part, Name>)
      requires Running(r, map[]) && Unchanged(r.pre, disk) && Marked(r) && r.a == a && a.haveDb
      requires IsStaged(r, Db, stamp)
      modifies this
      ensures old(history) <= history
      ensures Running(r, left)
      ensures failed == DbOutcome(r.pre, events)
      ensures failed == Some(RolledBack(true)) ==> Unchanged(r.pre, disk)
      ensures failed.Some? && failed.value.RolledBack? ==>
                forall p | p == Store || MoveBackFails(p) !in events :: InPlace(r.pre, disk, p)
      ensures disk.markers == Unmarked(old(disk).markers, stamp, events, failed == Some(RolledBack(true)))
      ensures failed.Some? && !failed.value.SetAsideFailed? ==>
                disk.staged == old(disk).staged - {(Db, stamp), (Store, stamp)}
      ensures failed.None? ==> left == asides && Store !in asides
      ensures failed.None? ==>
                disk == old(disk).(live := disk.live, staged := old(disk).staged - {(Db, stamp)}, shelf := disk.shelf)
      ensures failed.None? ==> CopyAt(r.pre, disk, Db) && NoSidecars(disk) && Same(r.pre.live, disk.live, Store)
      ensures failed.None? ==> forall p | p != Store :: p in asides <==> p in r.pre.live
      ensures failed.None? && !Lone(r.pre, a) ==> SeenMixed(history, r.pre, a, old(disk).markers)
    {
      hide Good, Displaced, SeenMixed;
      var ok;
      ok, asides := SetDatabaseAside(stamp, events, r);
      left := asides;
      if !ok {
        return Some(SetAsideFailed), asides, left;
      }
      ghost var seen := history;
      if SwapFails(Db) in events {
        ok, left := RollBackDatabaseSwap(stamp, events, r, asides);
        if ok {
          RemoveMarker(stamp, events, r, left);
        }
        return Some(RolledBack(ok)), asides, left;
      }
      SwapIn(Db, stamp, r, asides);
      if IntegrityFails in events {
        Discard({(Store, stamp)}, r, asides);
        return Some(IntegrityFailed), asides, left;
      }
      failed := None;
      SeenStays(seen, history, r.pre, a, old(disk).markers);
      if a.haveStore {
        NewDatabaseOldStore(r.pre, disk, a);
        MixedNow(r, asides);
      }
    }

    // -------------------------------------------------------------------------------
    // The store half, and the whole restore
    // -------------------------------------------------------------------------------

    /** What is not set aside is where it was. */
    lemma Standing(r: Run, left: map<Part, Name>)
      requires Running(r, left)
      ensures Numbered(r.pre) && forall p | p in left :: p in r.pre.live && Covers(r.a, p)
      ensures forall p | p in r.pre.live && p !in left :: p in disk.live && disk.live[p] == r.pre.live[p]
    {}

    /** The old database back over the new one, and only once it is back its sidecars. */
    method ReturnDatabase(stamp: Stamp, events: set<Event>, ghost r: Run, asides: map<Part, Name>,
                          ghost left: map<Part, Name>)
      returns (ok: bool, ghost left': map<Part, Name>)
      requires Running(r, left) && Marked(r)
      requires forall p | p != Store :: (p in asides <==> p in left) && (p in left ==> asides[p] == left[p])
      requires Db in asides && NoSidecars(disk)
      modifies this
      ensures old(history) <= history
      ensures Running(r, left')
      ensures disk == old(disk).(live := disk.live, shelf := disk.shelf)
      ensures Same(old(disk).live, disk.live, Store)
      ensures ok ==> DbGroupUnchanged(r.pre, disk)
      ensures ok <==> && !(Db in old(disk).live && ObstacleFails(Db) in events)
                      && forall p | p in asides && p != Store :: MoveBackFails(p) !in events
      ensures MoveBackFails(Db) !in events && !(Db in old(disk).live && ObstacleFails(Db) in events) ==>
                forall p | p in asides && p != Store && MoveBackFails(p) !in events :: InPlace(r.pre, disk, p)
    {
      hide Good, Displaced, Running;
      left' := left;
      Standing(r, left);
      AllParts();
      ok := MoveBackNoNest(Db, asides[Db], stamp, events, r, left);
      if ok {
        left' := left' - {Db};
        ok, left' := ReturnSidecars(true, stamp, events, r, asides, left');
        Standing(r, left');
      }
    }

    /** The old store back, by whatever name it was set aside under. */
    method ReturnStore(stamp: Stamp, events: set<Event>, ghost r: Run, asides: map<Part, Name>)
      returns (ok: bool, ghost left: map<Part, Name>)
      requires Running(r, asides) && Marked(r)
      requires Store in asides || NothingNew(r.pre, disk, Store)
      modifies this
      ensures old(history) <= history
      ensures Running(r, left) && left == if ok then asides - {Store} else asides
      ensures disk == old(disk).(live := disk.live, staged := old(disk).staged - {(Store, stamp)}, shelf := disk.shelf)
      ensures SameBut(old(disk).live, disk.live, Store)
      ensures ok ==> Same(r.pre.live, disk.live, Store)
      ensures ok <==> (Store in asides ==>
                         MoveBackFails(Store) !in events && !(Store in old(disk).live && ObstacleFails(Store) in events))
    {
      hide Good, Displaced, Running;
      ok, left := true, asides;
      Standing(r, asides);
      if Store in asides {
        ok := MoveBackNoNest(Store, asides[Store], stamp, events, r, left);
        left := if ok then left - {Store} else left;
      } else {
        assert asides - {Store} == asides;
      }
      Discard({(Store, stamp)}, r, left);
    }

    ghost predicate StoreBack(asides: map<Part, Name>, d: Disk, events: set<Event>) {
      Store in asides ==> MoveBackFails(Store) !in events && !(Store in d.live && ObstacleFails(Store) in events)
    }

    ghost predicate DbBackOver(asides: map<Part, Name>, events: set<Event>) {
      ObstacleFails(Db) !in events && forall p | p in asides && p != Store :: MoveBackFails(p) !in events
    }

    /** The handler of a failed store swap: the store back, then the database if it was swapped. */
    method RollBackStoreSwap(a: Archive, stamp: Stamp, events: set<Event>, ghost r: Run, asides: map<Part, Name>)
      returns (ok: bool, ghost left: map<Part, Name>)
      requires Running(r, asides) && Marked(r)
      requires Store in asides || NothingNew(r.pre, disk, Store)
      requires if a.haveDb then CopyAt(r.pre, disk, Db) && NoSidecars(disk) else DbGroupUnchanged(r.pre, disk)
      modifies this
      ensures old(history) <= history
      ensures Running(r, left)
      ensures disk == old(disk).(live := disk.live, staged := old(disk).staged - {(Store, stamp)}, shelf := disk.shelf)
      ensures ok && (a.haveDb ==> Db in asides) ==> Unchanged(r.pre, disk)
      ensures ok && a.haveDb && Db !in asides ==> CopyAt(r.pre, disk, Db) && Same(r.pre.live, disk.live, Store)
      ensures ok <==> StoreBack(asides, old(disk), events) && (a.haveDb && Db in asides ==> DbBackOver(asides, events))
      ensures StoreBack(asides, old(disk), events) ==> InPlace(r.pre, disk, Store)
      ensures a.haveDb && Db in asides && MoveBackFails(Db) !in events && ObstacleFails(Db) !in events ==>
                forall p | p in asides && p != Store && MoveBackFails(p) !in events :: InPlace(r.pre, disk, p)
      ensures !a.haveDb ==> DbGroupUnchanged(r.pre, disk)
    {
      hide Good, Displaced, Running;
      ok, left := ReturnStore(stamp, events, r, asides);
      if a.haveDb && Db in asides {
        var back;
        back, left := ReturnDatabase(stamp, events, r, asides, left);
        ok := ok && back;
      }
    }

    /** Rolls the store swap back, and drops the marker if every move of the rollback landed. */
    method AbandonStoreSwap(a: Archive, stamp: Stamp, events: set<Event>, ghost r: Run, asides: map<Part, Name>)
      returns (ok: bool, ghost left: map<Part, Name>)
      requires Running(r, asides) && Marked(r)
      requires Store in asides || NothingNew(r.pre, disk, Store)
      requires if a.haveDb then CopyAt(r.pre, disk, Db) && NoSidecars(disk) else DbGroupUnchanged(r.pre, disk)
      requires r.marked && a.haveDb ==> Db in asides
      modifies this
      ensures old(history) <= history
      ensures Running(r, left)
      ensures ok && (a.haveDb ==> Db in asides) ==> Unchanged(r.pre, disk)
      ensures ok && a.haveDb && Db !in asides ==> CopyAt(r.pre, disk, Db) && Same(r.pre.live, disk.live, Store)
      ensures ok <==> StoreBack(asides, old(disk), events) && (a.haveDb && Db in asides ==> DbBackOver(asides, events))
      ensures StoreBack(asides, old(disk), events) ==> InPlace(r.pre, disk, Store)
      ensures a.haveDb && Db in asides && MoveBackFails(Db) !in events && ObstacleFails(Db) !in events ==>
                forall p | p in asides && p != Store && MoveBackFails(p) !in events :: InPlace(r.pre, disk, p)
      ensures !a.haveDb ==> DbGroupUnchanged(r.pre, disk)
      ensures disk.markers == Unmarked(old(disk).markers, stamp, events, ok)
      ensures disk.staged == old(disk).staged - {(Store, stamp)}
    {
      hide Good, Displaced, Running, StoreBack, DbBackOver;
      ok, left := RollBackStoreSwap(a, stamp, events, r, asides);
      if ok {
        RemoveMarker(stamp, events, r, left);
      }
    }

    /** Sets the live store aside; it may come back to life before the swap. */
    method VacateStore(stamp: Stamp, events: set<Event>, ghost r: Run, asides0: map<Part, Name>)
      returns (ok: bool, asides: map<Part, Name>)
      requires Running(r, asides0) && Marked(r) && r.a.haveStore
      requires Store !in asides0 && NothingNew(r.pre, disk, Store)
      modifies this
      ensures old(history) <= history
      ensures Running(r, asides)
      ensures SameBut(old(disk).live, disk.live, Store)
      ensures disk == old(disk).(live := disk.live, shelf := disk.shelf, next := disk.next)
      ensures old(disk).next <= disk.next
      ensures asides0.Keys <= asides.Keys <= asides0.Keys + {Store}
      ensures ok ==> (Store in asides <==> Store in r.pre.live)
      ensures ok <==> !(Store in r.pre.live && Blocked(events, Store))
      ensures ok ==> (Store in disk.live <==> StoreRecreated in events && Store in r.pre.live)
      ensures Quiet(events) && Store in r.pre.live ==> SeenMixed(history, r.pre, r.a, old(disk).markers)
    {
      hide Good, Displaced, Running;
      ok, asides := SetAsideIfThere(Store, stamp, events, r, asides0);
      if ok && StoreRecreated in events && Store in asides {
        RecreateStore(r, asides);
      }
      if Quiet(events) && Store in r.pre.live {
        HalfIsGone(r.pre, disk, r.a);
        MixedNow(r, asides);
      }
    }

    /** The rollback's own account of what is back, in terms of the disk it began on. */
    lemma StoreRolledBack(pre: Disk, a: Archive, events: set<Event>, before: Disk, asides: map<Part, Name>, d: Disk, ok: bool)
      requires Store in asides <==> Store in pre.live
      requires Store in before.live <==> StoreRecreated in events && Store in pre.live
      requires a.haveDb ==> forall p | p != Store :: p in asides <==> p in pre.live
      requires ok <==> StoreBack(asides, before, events) && (a.haveDb && Db in asides ==> DbBackOver(asides, events))
      requires StoreBack(asides, before, events) ==> InPlace(pre, d, Store)
      requires a.haveDb && Db in asides && MoveBackFails(Db) !in events && ObstacleFails(Db) !in events ==>
                 forall p | p in asides && p != Store && MoveBackFails(p) !in events :: InPlace(pre, d, p)
      requires !a.haveDb ==> DbGroupUnchanged(pre, d)
      ensures ok <==> StoreReturns(pre, events)
                      && (a.haveDb && Db in pre.live ==> DbReturns(pre, events) && ObstacleFails(Db) !in events)
      ensures forall p | BackAfterStore(pre, a, events, p) :: InPlace(pre, d, p)
    {
      forall p | BackAfterStore(pre, a, events, p) ensures InPlace(pre, d, p) {
        match p case Db => case Journal => case Wal => case Shm => case Store =>
      }
    }

    lemma SameStoreIsNotNew(pre: Disk, d: Disk)
      requires Same(pre.live, d.live, Store)
      ensures NothingNew(pre, d, Store)
    {}

    /** What is done with the store leaves the other half as it is. */
    lemma HalfStands(pre: Disk, d: Disk, d': Disk, a: Archive)
      requires if a.haveDb then CopyAt(pre, d, Db) && NoSidecars(d) else DbGroupUnchanged(pre, d)
      requires SameBut(d.live, d'.live, Store)
      ensures if a.haveDb then CopyAt(pre, d', Db) && NoSidecars(d') else DbGroupUnchanged(pre, d')
      ensures Store !in d'.live ==> NothingNew(pre, d', Store)
    {}

    lemma StoreIsAlone(pre: Disk, d: Disk, a: Archive)
      requires a.haveStore && Store !in d.live && (!a.haveDb ==> DbGroupUnchanged(pre, d))
      ensures Lone(pre, a) ==> Unchanged(pre, d)
    {}

    lemma StoreLanded(pre: Disk, vacated: Disk, d: Disk, a: Archive)
      requires if a.haveDb then CopyAt(pre, vacated, Db) && NoSidecars(vacated) else DbGroupUnchanged(pre, vacated)
      requires a.haveStore && CopyAt(pre, d, Store) && SameBut(vacated.live, d.live, Store)
      ensures Restored(pre, d, a)
    {}

    /** Replaces the live store. None when it landed. A rename onto a directory that has come
        into being meanwhile fails. */
    method SwapStore(a: Archive, stamp: Stamp, events: set<Event>, ghost r: Run, asides0: map<Part, Name>)
      returns (failed: Option<Outcome>, ghost left: map<Part, Name>)
      requires Running(r, asides0) && Marked(r) && r.a == a && a.haveStore
      requires IsStaged(r, Store, stamp)
      requires Store !in asides0 && Same(r.pre.live, disk.live, Store)
      requires if a.haveDb then CopyAt(r.pre, disk, Db) && NoSidecars(disk)
               else DbGroupUnchanged(r.pre, disk)
      requires a.haveDb ==> forall p | p != Store :: p in asides0 <==> p in r.pre.live
      requires r.marked && a.haveDb ==> Db in r.pre.live
      modifies this
      ensures old(history) <= history
      ensures Running(r, left)
      ensures failed == StoreOutcome(r.pre, a, events)
      ensures failed.None? ==> Restored(r.pre, disk, a)
      ensures failed == Some(RolledBack(true)) && (a.haveDb ==> Db in r.pre.live) ==> Unchanged(r.pre, disk)
      ensures failed == Some(RolledBack(true)) && a.haveDb && Db !in r.pre.live ==>
                CopyAt(r.pre, disk, Db) && Same(r.pre.live, disk.live, Store)
      ensures failed.Some? && failed.value.RolledBack? ==>
                forall p | BackAfterStore(r.pre, a, events, p) :: InPlace(r.pre, disk, p)
      ensures disk.markers == Unmarked(old(disk).markers, stamp, events, failed == Some(RolledBack(true)))
      ensures failed != Some(SetAsideFailed) ==> disk.staged == old(disk).staged - {(Store, stamp)}
      ensures Quiet(events) && Store in r.pre.live ==> SeenMixed(history, r.pre, a, old(disk).markers)
    {
      hide Good, Displaced, Running, SeenMixed, Restored, Lone, Unchanged, Numbered, StoreReturns, DbReturns, Blocked;
      hide BackAfterStore, StoreBack, DbBackOver, InPlace, Same, SameBut, CopyAt, NoSidecars, DbGroupUnchanged, NothingNew;
      SameStoreIsNotNew(r.pre, disk);
      ghost var first := disk;
      var ok, asides := VacateStore(stamp, events, r, asides0);
      left := asides;
      HalfStands(r.pre, first, disk, a);
      if !ok {
        return Some(SetAsideFailed), left;
      }
      ghost var seen := history;
      if SwapFails(Store) in events || Store in disk.live {
        ghost var before, kept := disk, asides;
        ok, left := AbandonStoreSwap(a, stamp, events, r, asides);
        StoreRolledBack(r.pre, a, events, before, kept, disk, ok);
        SeenStays(seen, history, r.pre, a, old(disk).markers);
        return Some(RolledBack(ok)), left;
      }
      StoreIsAlone(r.pre, disk, a);
      ghost var vacated := disk;
      SwapIn(Store, stamp, r, asides);
      StoreLanded(r.pre, vacated, disk, a);
      SeenStays(seen, history, r.pre, a, old(disk).markers);
      failed := None;
    }

    /** Everything after staging: both swaps, the database's first. */
    method SwapBoth(a: Archive, stamp: Stamp, events: set<Event>, ghost r: Run)
      returns (failed: Option<Outcome>, ghost left: map<Part, Name>)
      requires Running(r, map[]) && Unchanged(r.pre, disk) && Marked(r) && r.a == a
      requires r.marked && a.haveDb && a.haveStore ==> Db in r.pre.live
      requires (a.haveDb ==> IsStaged(r, Db, stamp)) && (a.haveStore ==> IsStaged(r, Store, stamp))
      modifies this
      ensures old(history) <= history
      ensures Running(r, left)
      ensures failed == SwapOutcome(r.pre, a, events)
      ensures failed.None? ==> Restored(r.pre, disk, a)
      ensures failed == Some(RolledBack(true)) && !Strands(r.pre, a, events) ==> Unchanged(r.pre, disk)
      ensures failed == Some(RolledBack(true)) && Strands(r.pre, a, events) ==>
                CopyAt(r.pre, disk, Db) && Same(r.pre.live, disk.live, Store)
      ensures failed.Some? && failed.value.RolledBack? ==> forall p | Back(r.pre, a, events, p) :: InPlace(r.pre, disk, p)
      ensures disk.markers ==
              Unmarked(old(disk).markers, stamp, events, failed == Some(RolledBack(true)))
      ensures failed != Some(SetAsideFailed) ==> CopiesOnly(old(disk), disk, {}, stamp) && NoneStaged(disk, a, stamp)
      ensures Quiet(events) && !Lone(r.pre, a) ==> SeenMixed(history, r.pre, a, old(disk).markers)
    {
      hide Good, Displaced, Running;
      var asides: map<Part, Name>;
      failed, asides, left := None, map[], map[];
      if a.haveDb {
        failed, asides, left := SwapDatabase(a, stamp, events, r);
      }
      ghost var seen := history;
      if failed.None? && a.haveStore {
        failed, left := SwapStore(a, stamp, events, r, asides);
      }
      SeenStays(seen, history, r.pre, a, old(disk).markers);
    }

    /** What a run has kept up at every step, said without its bookkeeping. */
    lemma RunKept(r: Run, asides: map<Part, Name>)
      requires Running(r, asides)
      ensures AllSafe(r.pre) && (r.marked ==> AllAtomic(r.pre, r.a))
      ensures history != [] && history[0] == r.pre && history[|history| - 1] == disk
    {
    }

    ghost predicate AllSafe(pre: Disk) reads this {
      forall i | 0 <= i < |history| :: Safe(pre, history[i])
    }

    ghost predicate AllAtomic(pre: Disk, a: Archive) reads this {
      forall i | 0 <= i < |history| :: Atomic(pre, history[i], a)
    }

    /** The restore proper, with its bookkeeping. */
    method Perform(a: Archive, stamp: Stamp, events: set<Event>, ghost r: Run)
      returns (outcome: Outcome, ghost left: map<Part, Name>)
      requires Running(r, map[]) && disk == r.pre && r.a == a && r.marked == Protected(r.pre, a, events)
      modifies this
      ensures old(history) <= history && Running(r, left)
      ensures outcome == OutcomeOf(r.pre, a, stamp, events)
      ensures disk.markers == MarkersAfter(r.pre, stamp, events, outcome)
      ensures outcome == Refused ==> history == old(history) && disk == old(disk)
      ensures outcome == StagingFailed ==> disk.live == r.pre.live && disk.shelf == r.pre.shelf
      ensures outcome == Completed ==> Restored(r.pre, disk, a)
      ensures outcome == RolledBack(true) && !Strands(r.pre, a, events) ==> Unchanged(r.pre, disk)
      ensures outcome == RolledBack(true) && Strands(r.pre, a, events) ==>
                CopyAt(r.pre, disk, Db) && Same(r.pre.live, disk.live, Store)
      ensures outcome.RolledBack? ==> forall p | Back(r.pre, a, events, p) :: InPlace(r.pre, disk, p)
      ensures !outcome.SetAsideFailed? ==> CopiesOnly(r.pre, disk, {}, stamp)
      ensures events == {MarkerWriteFails} && r.pre.markers == {} && (Store, stamp) !in r.pre.staged && !r.marked ==>
                SeenMixed(history, r.pre, a, {})
    {
      hide Good, Displaced, Running, Unchanged, Restored, CopyAt, SeenMixed, IsStaged, Numbered, Lone;
      hide CopiesOnly, NoneStaged, Back, InPlace, SwapOutcome, Strands;
      left := map[];
      if r.marked { ProtectedHasDatabase(r.pre, a, events); }
      if disk.markers != {} {
        AllCopiesOld(r.pre, stamp);
        return Refused, left;
      }
      var ok := Prepare(a, stamp, events, r);
      if !ok {
        return StagingFailed, left;
      }
      ghost var prepared := disk;
      var failed;
      failed, left := SwapBoth(a, stamp, events, r);
      if failed != Some(SetAsideFailed) { CopiesGone(r.pre, prepared, disk, a, stamp); }
      if failed.Some? {
        return failed.value, left;
      }
      ghost var landed, seen := disk, history;
      RemoveMarker(stamp, events, r, left);
      SameCopies(r.pre, landed, disk, stamp);
      RestoredByLive(r.pre, landed, disk, a);
      SeenStays(seen, history, r.pre, a, {});
      outcome := Completed;
    }

    /** Both copies are staged, and then the marker is written, if it can be. */
    method Prepare(a: Archive, stamp: Stamp, events: set<Event>, ghost r: Run) returns (ok: bool)
      requires Running(r, map[]) && disk == r.pre && r.a == a && r.marked == Protected(r.pre, a, events)
      modifies this
      ensures old(history) <= history && Running(r, map[]) && Unchanged(r.pre, disk)
      ensures disk.live == r.pre.live && disk.shelf == r.pre.shelf
      ensures ok ==> Marked(r) && (a.haveDb ==> IsStaged(r, Db, stamp)) && (a.haveStore ==> IsStaged(r, Store, stamp))
      ensures ok ==> disk.markers == if MarkerWriteFails in events then r.pre.markers else r.pre.markers + {stamp}
      ensures ok <==> Stages(r.pre, a, stamp, events)
      ensures !ok ==> disk.markers == r.pre.markers
      ensures CopiesOnly(r.pre, disk, if ok then Covered(a) else {}, stamp)
    {
      assert Unchanged(r.pre, disk);
      hide Good, Displaced, Running, Unchanged;
      ok := Stage(a, stamp, events, r);
      SameLive(r.pre, disk);
      if ok && MarkerWriteFails !in events {
        WriteMarker(stamp, r);
        SameLive(r.pre, disk);
      }
    }

    method WriteMarker(stamp: Stamp, ghost r: Run)
      requires Running(r, map[]) && Unchanged(r.pre, disk)
      modifies this
      ensures old(history) <= history && Running(r, map[])
      ensures disk == old(disk).(markers := old(disk).markers + {stamp})
    {
      Step(disk.(markers := disk.markers + {stamp}), r, map[], map[]);
    }

    /** restore_backup. At every point at which it can be killed nothing is lost, overwritten
        or nested and no old journal lies beside the new database; and if the run is
        protected, a disk without a marker is wholly as before or wholly restored. */
    method RestoreBackup(a: Archive, stamp: Stamp, events: set<Event>) returns (outcome: Outcome)
      requires Numbered(disk)
      modifies this
      ensures history != [] && history[0] == old(disk) && history[|history| - 1] == disk
      ensures AllSafe(old(disk))
      ensures Protected(old(disk), a, events) ==> AllAtomic(old(disk), a)
      // How it ends, whatever goes wrong, and which marker and working copies it leaves.
      ensures outcome == OutcomeOf(old(disk), a, stamp, events)
      ensures disk.markers == MarkersAfter(old(disk), stamp, events, outcome)
      ensures !outcome.SetAsideFailed? ==> CopiesOnly(old(disk), disk, {}, stamp)
      ensures outcome == Refused ==> history == [old(disk)]
      ensures outcome == Refused || outcome == StagingFailed ==>
                disk.live == old(disk).live && disk.shelf == old(disk).shelf
      ensures outcome == Completed ==> Restored(old(disk), disk, a)
      // A rollback puts back every part whose own move back does not fail; a clean one is the old state,
      // except that without a live database the failed store swap of a full archive strands a mixed
      // generation, and says it was rolled back.
      ensures outcome.RolledBack? ==> forall p | Back(old(disk), a, events, p) :: InPlace(old(disk), disk, p)
      ensures outcome == RolledBack(true) && !Strands(old(disk), a, events) ==> Unchanged(old(disk), disk)
      ensures outcome == RolledBack(true) && Strands(old(disk), a, events) ==>
                CopyAt(old(disk), disk, Db) && Same(old(disk).live, disk.live, Store)
      // And `Protected` is exact: where it fails, one event is enough for a mixture that nothing on
      // disk gives away.
      ensures (events == {MarkerWriteFails} || events == {SwapFails(Store)}) && old(disk).markers == {}
              && (Store, stamp) !in old(disk).staged && !Protected(old(disk), a, events) ==>
                !AllAtomic(old(disk), a)
    {
      hide Running, Restored, Unchanged, AllSafe, AllAtomic, Lone, Back, InPlace, CopiesOnly, Strands, SeenMixed;
      hide OutcomeOf, MarkersAfter, SwapOutcome, Stages, Protected, CopyAt, Same;
      ghost var r := Run(disk, a, Protected(disk, a, events));
      history := [disk];
      Started(r);
      ghost var left;
      outcome, left := Perform(a, stamp, events, r);
      RunKept(r, left);
      StrandedIsMixed(r.pre, a);
      if events == {SwapFails(Store)} && !r.marked { StrandedOutcome(r.pre, a, stamp, events); }
      if SeenMixed(history, r.pre, a, {}) { MixedIsNotAtomic(r.pre, a); }
    }

    lemma Started(r: Run)
      requires history == [disk] && disk == r.pre && Numbered(disk)
      ensures Running(r, map[])
    {}

    lemma StrandedOutcome(pre: Disk, a: Archive, stamp: Stamp, events: set<Event>)
      requires events == {SwapFails(Store)} && !Protected(pre, a, events)
      ensures a.haveStore
      ensures pre.markers == {} && (Store, stamp) !in pre.staged ==>
                && OutcomeOf(pre, a, stamp, events) == RolledBack(true) && Strands(pre, a, events)
                && MarkersAfter(pre, stamp, events, RolledBack(true)) == {}
    {}

    lemma MixedIsNotAtomic(pre: Disk, a: Archive)
      requires SeenMixed(history, pre, a, {})
      ensures !AllAtomic(pre, a)
    {
      hide Whole;
      var i :| 0 <= i < |history| && history[i].markers == {} && !Whole(pre, history[i], a);
      assert !Atomic(pre, history[i], a);
    }

    lemma StrandedIsMixed(pre: Disk, a: Archive)
      requires history != [] && history[|history| - 1] == disk && Numbered(pre)
      ensures a.haveStore && disk.markers == {} && CopyAt(pre, disk, Db) && Same(pre.live, disk.live, Store) ==>
                SeenMixed(history, pre, a, {})
    {
      if a.haveStore && disk.markers == {} && CopyAt(pre, disk, Db) && Same(pre.live, disk.live, Store) {
        NewDatabaseOldStore(pre, disk, a);
        SeenNow(history, disk, pre, a);
      }
    }

    /** One restore, perhaps killed, and perhaps its marker cleared by hand afterwards. */
    method Try(t: Attempt)
      requires Numbered(disk)
      modifies this
      ensures Safe(old(disk), disk) && Attempted(old(disk), t, disk)
      ensures !t.clearedByHand && old(disk).markers != {} ==> disk == old(disk)
      // It ends where it was killed, or where it ran to.
      ensures history != [] && history[0] == old(disk)
      ensures var k := if t.killedAt.Some? && t.killedAt.value < |history| then t.killedAt.value else |history| - 1;
              disk == if t.clearedByHand then history[k].(markers := {}) else history[k]
    {
      hide Safe, Restored, Protected, Atomic, Whole;
      ghost var before := disk;
      var outcome := RestoreBackup(t.archive, t.stamp, t.events);
      if t.killedAt.Some? && t.killedAt.value < |history| {
        disk := history[t.killedAt.value];
      }
      if t.clearedByHand {
        ghost var left := disk;
        disk := disk.(markers := {});
        SafeByMarkers(before, left, disk);
        RestoredByLive(before, left, disk, t.archive);
      }
      SafeKeeps(before, disk);
    }

    /** Any number of restores, each possibly killed at any point, each with its own trouble:
        no original is ever lost, and an attempt that nothing disturbs restores its archive. With
        every marker written and left to the program, whenever no marker is on disk the live paths
        are those that some sequence of whole restores would have left. */
    method RepeatedRestores(attempts: seq<Attempt>) returns (ghost disks: seq<Disk>, ghost commits: seq<Disk>)
      requires Numbered(disk)
      modifies this
      ensures Conserved(old(disk), disk) && Undisturbed(old(disk), disk)
      ensures |disks| == |attempts| + 1 && disks[0] == old(disk) && disks[|attempts|] == disk
      ensures forall k | 0 <= k < |attempts| :: Attempted(disks[k], attempts[k], disks[k + 1])
      ensures Guarded(old(disk), attempts) ==>
                forall k | 0 <= k < |attempts| && disks[k + 1].markers == {} ::
                  disks[k].markers == {} && Db in disks[k].live && Whole(disks[k], disks[k + 1], attempts[k].archive)
      ensures Guarded(old(disk), attempts) ==>
                && commits != [] && commits[0] == old(disk) && WholeRestores(commits)
                && (disk.markers == {} ==> disk.live == commits[|commits| - 1].live)
    {
      hide Safe, Atomic, Attempted, Whole, WholeRestores, Committed, Protected;
      disks, commits := [disk], [disk];
      ghost var guarded := Guarded(disk, attempts);
      assert WholeRestores(commits) by { NoRestores(disk); }
      for k := 0 to |attempts|
        invariant Conserved(old(disk), disk) && Undisturbed(old(disk), disk)
        invariant Numbered(disk)
        invariant |disks| == k + 1 && disks[0] == old(disk) && disks[k] == disk
        invariant forall j | 0 <= j < k :: Attempted(disks[j], attempts[j], disks[j + 1])
        invariant guarded ==>
                    forall j | 0 <= j < k && disks[j + 1].markers == {} ::
                      disks[j].markers == {} && Db in disks[j].live && Whole(disks[j], disks[j + 1], attempts[j].archive)
        invariant guarded ==>
                    && commits != [] && commits[0] == old(disk) && WholeRestores(commits)
                    && commits[|commits| - 1].next <= disk.next
                    && (disk.markers == {} ==> Db in disk.live && disk.live == commits[|commits| - 1].live)
      {
        ghost var before := disk;
        Try(attempts[k]);
        disks := disks + [disk];
        SafeKeeps(before, disk);
        if guarded {
          if before.markers == {} {
            WrittenIsProtected(before, attempts[k]);
            MixesNothing(before, attempts[k], disk);
          }
          CommittedIsWhole(commits, before, disk, attempts[k].archive);
          commits := Committed(commits, before, disk);
        }
      }
    }
  }

  /** What an attempt makes of a disk: everything is still there, a marker stops it, if nothing
      disturbs it the archive is restored, and a protected one mixes nothing without a marker. */
  ghost predicate Attempted(d: Disk, t: Attempt, d': Disk) {
    && Conserved(d, d') && Undisturbed(d, d')
    && (d.markers != {} ==> d'.live == d.live && d'.shelf == d.shelf)
    && (t.events == {} && t.killedAt.None? && d.markers == {} && (Store, t.stamp) !in d.staged ==>
          Restored(d, d', t.archive) && d'.markers == {})
    && (!t.clearedByHand && Protected(d, t.archive, t.events) ==> Atomic(d, d', t.archive))
  }

  /** A live database to begin with, and markers that are written and left alone. */
  ghost predicate Guarded(d: Disk, attempts: seq<Attempt>) {
    && d.markers == {} && Db in d.live
    && forall k | 0 <= k < |attempts| :: MarkerWriteFails !in attempts[k].events && !attempts[k].clearedByHand
  }

  lemma WrittenIsProtected(d: Disk, t: Attempt)
    requires MarkerWriteFails !in t.events && Db in d.live
    ensures Protected(d, t.archive, t.events)
  {}

  lemma MixesNothing(d: Disk, t: Attempt, d': Disk)
    requires Attempted(d, t, d') && !t.clearedByHand && Protected(d, t.archive, t.events)
    ensures Atomic(d, d', t.archive) && (d'.markers == {} ==> Whole(d, d', t.archive))
  {}

  lemma NoRestores(d: Disk)
    ensures WholeRestores([d])
  {}

  lemma SafeKeeps(pre: Disk, d: Disk)
    requires Safe(pre, d)
    ensures Conserved(pre, d) && Undisturbed(pre, d) && Numbered(d) && pre.next <= d.next
  {}

  lemma SafeByMarkers(pre: Disk, d: Disk, d': Disk)
    requires Safe(pre, d) && d'.live == d.live && d'.shelf == d.shelf && d'.next == d.next
    ensures Safe(pre, d')
  {
    assert forall item :: OnDisk(d, item) <==> OnDisk(d', item);
  }
}
