/**
  The refusal memo of compactor/dedup.py: an ordered dictionary of conversations, each an
  ordered dictionary from clusters the model refused to merge to the reason, both with
  least-recently-used eviction. A cluster's key is the multiset of its texts, which is what
  the hash of the sorted texts stands for.
  */
module RefusalMemo {
  import opened Options

  datatype Reason = Keep | Truncated | Short | Collapsed | Markup | Error

  /** Refusals that came from a completed reply; a failed call is not an answer. */
  predicate Memoisable(r: Reason) { r.Keep? || r.Truncated? || r.Short? || r.Collapsed? }

  type Key = multiset<string>

  datatype Verdict = Merged(text: string) | Refused(reason: Reason)

  /** What the model says of a cluster when it answers at all. */
  type Oracle = Key -> Verdict

  const MAX_CLUSTERS_PER_CONV := 512
  const MAX_CONVS := 32

  // ---------------------------------------------------------------------------------
  // An ordered dictionary, oldest entry first
  // ---------------------------------------------------------------------------------

  type Ordered<K, V> = seq<(K, V)>

  ghost predicate DistinctKeys<K, V>(d: Ordered<K, V>) {
    forall i, j | 0 <= i < j < |d| :: d[i].0 != d[j].0
  }

  function Lookup<K(==,!new), V(!new)>(d: Ordered<K, V>, key: K): (r: Option<V>)
    ensures r.Some? ==> (key, r.value) in d
    ensures r.None? ==> forall e | e in d :: e.0 != key
  {
    if d == [] then None else if d[0].0 == key then Some(d[0].1) else Lookup(d[1..], key)
  }

  function Without<K(==,!new), V(!new)>(d: Ordered<K, V>, key: K): (r: Ordered<K, V>)
    requires DistinctKeys(d)
    ensures DistinctKeys(r)
    ensures forall e :: e in r <==> e in d && e.0 != key
    ensures |r| == |d| - if Lookup(d, key).Some? then 1 else 0
  {
    if d == [] then [] else if d[0].0 == key then d[1..] else [d[0]] + Without(d[1..], key)
  }

  lemma TailDistinct<K, V>(d: Ordered<K, V>)
    requires DistinctKeys(d) && d != []
    ensures DistinctKeys(d[1..])
  {}

  lemma CutBehindFirst<T>(d: seq<T>, n: nat)
    requires 0 < n <= |d|
    ensures [d[0]] + d[1..] == d
    ensures n < |d| ==> [d[0]] + (d[1..][..n - 1] + d[1..][n..]) == d[..n] + d[n + 1..]
  {}

  /** The entry is cut out of its place, if there is one, and the others stand as they stood. */
  lemma {:induction false} WithoutCutsOut<K(!new), V(!new)>(d: Ordered<K, V>, key: K, n: nat)
    requires DistinctKeys(d) && n <= |d|
    requires n < |d| ==> d[n].0 == key
    requires forall i | 0 <= i < n :: d[i].0 != key
    ensures Without(d, key) == if n < |d| then d[..n] + d[n + 1..] else d
  {
    hide DistinctKeys, Lookup;
    if n == 0 {
      assert d != [] ==> d[..0] + d[1..] == d[1..];
    } else {
      assert DistinctKeys(d[1..]) by { TailDistinct(d); }
      WithoutCutsOut(d[1..], key, n - 1);
      CutBehindFirst(d, n);
    }
  }

  /** Sets `key` and makes it the newest. */
  function Put<K(==,!new), V(!new)>(d: Ordered<K, V>, key: K, value: V): (r: Ordered<K, V>)
    requires DistinctKeys(d)
    ensures DistinctKeys(r)
    ensures forall e :: e in r <==> e == (key, value) || (e in d && e.0 != key)
    ensures r != [] && r[|r| - 1] == (key, value) && |r| <= |d| + 1
  {
    Without(d, key) + [(key, value)]
  }

  /** Drops the oldest entries beyond `cap`. */
  function Newest<K(==,!new), V(!new)>(d: Ordered<K, V>, cap: nat): (r: Ordered<K, V>)
    requires DistinctKeys(d)
    ensures DistinctKeys(r) && |r| <= cap && (|d| <= cap ==> r == d)
    ensures forall e | e in r :: e in d
    ensures cap > 0 && d != [] ==> r != [] && r[|r| - 1] == d[|d| - 1]
  {
    if |d| <= cap then d else d[|d| - cap..]
  }

  /** The others keep their order behind the newest entry, and only the oldest of a full
      dictionary makes way. */
  ghost predicate Aged<K(!new), V(!new)>(was: Ordered<K, V>, now: Ordered<K, V>, key: K, value: V, cap: nat)
    requires DistinctKeys(was) && cap > 0
  {
    var others := Without(was, key);
    && now != [] && now[|now| - 1] == (key, value)
    && now[..|now| - 1] == if |others| < cap then others else others[1..]
  }

  lemma PutAges<K(!new), V(!new)>(was: Ordered<K, V>, key: K, value: V, cap: nat)
    requires DistinctKeys(was) && 0 < cap && |was| <= cap
    ensures Aged(was, Newest(Put(was, key, value), cap), key, value, cap)
  {
    hide Without, DistinctKeys, Lookup;
    BeforeTheLast(Without(was, key), (key, value));
  }

  lemma BeforeTheLast<T>(others: seq<T>, x: T)
    ensures (others + [x])[..|others|] == others
    ensures others != [] ==> (others + [x])[1..] == others[1..] + [x] && (others[1..] + [x])[..|others| - 1] == others[1..]
  {}

  type PerConv = Ordered<Key, Reason>

  type Book = Ordered<string, PerConv>

  ghost predicate ValidBook(book: Book) {
    && DistinctKeys(book) && |book| <= MAX_CONVS
    && forall c | c in book :: DistinctKeys(c.1) && |c.1| <= MAX_CLUSTERS_PER_CONV
  }

  ghost predicate HoldsIn(book: Book, conv: string, key: Key, reason: Reason) {
    exists c | c in book :: c.0 == conv && (key, reason) in c.1
  }

  function EntriesIn(book: Book, conv: string): (per: PerConv)
    ensures ValidBook(book) ==> DistinctKeys(per) && |per| <= MAX_CLUSTERS_PER_CONV
    ensures per != [] ==> (conv, per) in book
  {
    var found := Lookup(book, conv);
    if found.Some? then found.value else []
  }

  /** Both levels as `_memo_put` leaves them. */
  ghost predicate Remembers(was: Book, now: Book, conv: string, key: Key, reason: Reason)
    requires ValidBook(was)
  {
    && now != [] && Aged(was, now, conv, now[|now| - 1].1, MAX_CONVS)
    && Aged(EntriesIn(was, conv), now[|now| - 1].1, key, reason, MAX_CLUSTERS_PER_CONV)
  }

  function Recorded(book: Book, conv: string, key: Key, reason: Reason): (r: Book)
    requires ValidBook(book)
  {
    var per := Newest(Put(EntriesIn(book, conv), key, reason), MAX_CLUSTERS_PER_CONV);
    Newest(Put(book, conv, per), MAX_CONVS)
  }

  lemma RecordedRemembers(book: Book, conv: string, key: Key, reason: Reason)
    requires ValidBook(book)
    ensures ValidBook(Recorded(book, conv, key, reason)) && Remembers(book, Recorded(book, conv, key, reason), conv, key, reason)
  {
    hide Newest, Put, Without, Aged, DistinctKeys;
    var entries := EntriesIn(book, conv);
    var per := Newest(Put(entries, key, reason), MAX_CLUSTERS_PER_CONV);
    PutAges(entries, key, reason, MAX_CLUSTERS_PER_CONV);
    PutAges(book, conv, per, MAX_CONVS);
  }

  /** Recording adds one entry and may lose some; it never makes one up. */
  lemma RecordedHolds(book: Book, conv: string, key: Key, reason: Reason)
    requires ValidBook(book)
    ensures HoldsIn(Recorded(book, conv, key, reason), conv, key, reason)
    ensures forall v, k, r | HoldsIn(Recorded(book, conv, key, reason), v, k, r) ::
              HoldsIn(book, v, k, r) || (v == conv && k == key && r == reason)
  {
    hide Newest, Put, Without, DistinctKeys, Lookup;
    var entries, now := EntriesIn(book, conv), Recorded(book, conv, key, reason);
    var per := Newest(Put(entries, key, reason), MAX_CLUSTERS_PER_CONV);
    assert now[|now| - 1] == (conv, per) && per[|per| - 1] == (key, reason);
    forall v, k, r | HoldsIn(now, v, k, r) ensures HoldsIn(book, v, k, r) || (v == conv && k == key && r == reason) {
      var c :| c in now && c.0 == v && (k, r) in c.1;
      assert c in Put(book, conv, per);
      if c == (conv, per) && (k, r) != (key, reason) {
        assert (k, r) in Put(entries, key, reason);
        assert (k, r) in entries;
        assert (conv, entries) in book;
      }
    }
  }

  /** A hit is recorded again: then nothing makes way, and what is held stays what it was. */
  lemma {:induction false} HitKeepsAll(book: Book, conv: string, key: Key, reason: Reason)
    requires ValidBook(book) && Lookup(EntriesIn(book, conv), key) == Some(reason)
    ensures Recorded(book, conv, key, reason) == Put(book, conv, Put(EntriesIn(book, conv), key, reason))
    ensures forall v, k, r :: HoldsIn(Recorded(book, conv, key, reason), v, k, r) <==> HoldsIn(book, v, k, r)
  {
    var entries := EntriesIn(book, conv);
    var now := Put(book, conv, Put(entries, key, reason));
    assert |Put(entries, key, reason)| == |entries| && |now| == |book|;
    assert (conv, entries) in book && (key, reason) in entries;
    RecordedHolds(book, conv, key, reason);
    hide Put, Without, DistinctKeys, Lookup, Recorded;
    forall v, k, r | HoldsIn(book, v, k, r) ensures HoldsIn(now, v, k, r) {
      OneEntryEach(book, conv, entries);
      var c :| c in book && c.0 == v && (k, r) in c.1;
      if v == conv {
        HitStays(entries, key, reason, k, r);
        assert (conv, Put(entries, key, reason)) in now;
      } else {
        assert c in now;
      }
    }
  }

  lemma MissHoldsNothing(book: Book, conv: string, key: Key)
    requires ValidBook(book)
    ensures DistinctKeys(book) && DistinctKeys(EntriesIn(book, conv))
    ensures Lookup(EntriesIn(book, conv), key).None? ==> forall r :: !HoldsIn(book, conv, key, r)
    ensures Lookup(EntriesIn(book, conv), key).Some? ==>
              HoldsIn(book, conv, key, Lookup(EntriesIn(book, conv), key).value)
    ensures Lookup(book, conv).Some? ==> Lookup(book, conv).value == EntriesIn(book, conv)
    ensures Lookup(book, conv).None? ==> forall r :: !HoldsIn(book, conv, key, r)
  {
    hide Without, Put, Newest;
    var entries := EntriesIn(book, conv);
    if Lookup(book, conv).Some? { OneEntryEach(book, conv, entries); }
  }

  lemma OneEntryEach(book: Book, conv: string, entries: PerConv)
    requires DistinctKeys(book) && (conv, entries) in book
    ensures forall c | c in book && c.0 == conv :: c.1 == entries
  {}

  lemma HitStays(entries: PerConv, key: Key, reason: Reason, k: Key, r: Reason)
    requires DistinctKeys(entries) && (key, reason) in entries && (k, r) in entries
    ensures (k, r) in Put(entries, key, reason)
  {}

  // ---------------------------------------------------------------------------------
  // Which clusters of a conversation are known
  // ---------------------------------------------------------------------------------

  function KeySet(per: PerConv): set<Key> { set e | e in per :: e.0 }

  /** The keys held for a conversation; no conversation, no memo. */
  function KnownKeys(book: Book, conv: Option<string>): set<Key> {
    if conv.None? then {} else KeySet(EntriesIn(book, conv.value))
  }

  lemma {:induction false} KeySetSize(per: PerConv)
    requires DistinctKeys(per)
    ensures |KeySet(per)| == |per|
  {
    if per != [] {
      var init, last := per[..|per| - 1], per[|per| - 1];
      assert per == init + [last];
      KeySetSize(init);
      assert KeySet(per) == KeySet(init) + {last.0};
      assert last.0 !in KeySet(init);
    }
  }

  lemma LookupIsKnown(per: PerConv, key: Key)
    ensures Lookup(per, key).Some? <==> key in KeySet(per)
  {}

  lemma PutKeys(per: PerConv, key: Key, reason: Reason)
    requires DistinctKeys(per)
    ensures KeySet(Put(per, key, reason)) == KeySet(per) + {key}
    ensures |Put(per, key, reason)| == if key in KeySet(per) then |per| else |per| + 1
  {
    hide Without, DistinctKeys, Lookup;
    LookupIsKnown(per, key);
    var r := Put(per, key, reason);
    forall k ensures k in KeySet(r) <==> k in KeySet(per) + {key} {
      if k == key {
        assert (key, reason) in r;
      } else if k in KeySet(per) {
        var e :| e in per && e.0 == k;
        assert e in r;
      }
    }
  }

  lemma LastIsFound(book: Book, conv: string, per: PerConv)
    requires DistinctKeys(book) && book != [] && book[|book| - 1] == (conv, per)
    ensures EntriesIn(book, conv) == per
  {
    assert (conv, per) in book;
    FoundLast(book, conv, per);
  }

  lemma {:induction false} FoundLast(book: Book, conv: string, per: PerConv)
    requires DistinctKeys(book) && (conv, per) in book
    ensures Lookup(book, conv) == Some(per)
  {
    OneEntryEach(book, conv, per);
  }

  /** Recording makes its key known, and no other; while there is room, none is forgotten. */
  lemma {:induction false} RecordedKnows(book: Book, conv: string, key: Key, reason: Reason)
    requires ValidBook(book)
    ensures var was, now := KnownKeys(book, Some(conv)), KnownKeys(Recorded(book, conv, key, reason), Some(conv));
            && key in now && now <= was + {key}
            && (key in was || |was| < MAX_CLUSTERS_PER_CONV ==> now == was + {key})
  {
    hide Put, Without, DistinctKeys, Lookup, Newest;
    var entries := EntriesIn(book, conv);
    var filled := Put(entries, key, reason);
    var per := Newest(filled, MAX_CLUSTERS_PER_CONV);
    KeySetSize(entries);
    PutKeys(entries, key, reason);
    LastIsFound(Recorded(book, conv, key, reason), conv, per);
    assert per[|per| - 1] == (key, reason);
    assert forall e | e in per :: e in filled;
    assert |filled| <= MAX_CLUSTERS_PER_CONV ==> per == filled;
  }

  class Memo {
    var convs: Book

    ghost predicate Valid() reads this { ValidBook(convs) }

    ghost predicate Holds(conv: string, key: Key, reason: Reason) reads this { HoldsIn(convs, conv, key, reason) }

    /** The memo only ever holds true, repeatable refusals. */
    ghost predicate Sound(oracle: Oracle) reads this {
      forall v, k, r :: Holds(v, k, r) ==> oracle(k) == Refused(r) && Memoisable(r)
    }

    constructor ()
      ensures Valid() && forall oracle :: Sound(oracle)
    {
      convs := [];
    }

    /** _memo_get: a hit becomes the newest entry of the newest conversation, and nothing makes way. */
    method Get(conv: Option<string>, key: Key) returns (reason: Option<Reason>)
      requires Valid()
      modifies this
      ensures Valid()
      ensures conv.None? ==> reason.None?
      ensures reason.Some? ==> old(Holds(conv.value, key, reason.value))
      ensures reason.None? && conv.Some? ==> forall r :: !old(Holds(conv.value, key, r))
      ensures forall v, k, r :: Holds(v, k, r) <==> old(Holds(v, k, r))
      ensures reason.None? ==> convs == old(convs)
      ensures KnownKeys(convs, conv) == old(KnownKeys(convs, conv))
      ensures reason.Some? <==> key in old(KnownKeys(convs, conv))
      ensures reason.Some? ==> Remembers(old(convs), convs, conv.value, key, reason.value)
    {
      hide ValidBook, HoldsIn, Remembers, Newest, Put, DistinctKeys, Recorded;
      if conv.None? {
        return None;
      }
      MissHoldsNothing(convs, conv.value, key);
      LookupIsKnown(EntriesIn(convs, conv.value), key);
      var per := Lookup(convs, conv.value);
      if per.None? {
        return None;
      }
      reason := Lookup(per.value, key);
      if reason.Some? {
        RecordedRemembers(convs, conv.value, key, reason.value);
        HitKeepsAll(convs, conv.value, key, reason.value);
        RecordedKnows(convs, conv.value, key, reason.value);
        convs := Put(convs, conv.value, Put(per.value, key, reason.value));
      }
    }

    /** _memo_put: the new refusal is the newest, and of a full dictionary only the oldest makes way. */
    method Record(conv: Option<string>, key: Key, reason: Reason)
      requires Valid()
      modifies this
      ensures Valid()
      ensures conv.None? ==> convs == old(convs)
      ensures conv.Some? ==> Holds(conv.value, key, reason) && Remembers(old(convs), convs, conv.value, key, reason)
      ensures forall v, k, r :: Holds(v, k, r) ==> old(Holds(v, k, r)) || (conv == Some(v) && k == key && r == reason)
      ensures conv.Some? ==>
                && key in KnownKeys(convs, conv) && KnownKeys(convs, conv) <= old(KnownKeys(convs, conv)) + {key}
                && (|old(KnownKeys(convs, conv))| < MAX_CLUSTERS_PER_CONV ==>
                      KnownKeys(convs, conv) == old(KnownKeys(convs, conv)) + {key})
    {
      hide ValidBook, HoldsIn, Remembers, Newest, Put, DistinctKeys, Lookup;
      if conv.None? {
        return;
      }
      RecordedRemembers(convs, conv.value, key, reason);
      RecordedHolds(convs, conv.value, key, reason);
      RecordedKnows(convs, conv.value, key, reason);
      convs := Recorded(convs, conv.value, key, reason);
    }
  }
}
