/**
  The episodic store of compactor/retrieval.py: rows identified by conversation and text, with an
  ordinal that only orders them. The content hash is the text itself; the store may fail to answer
  a probe, to embed, or to write.
  */
module EpisodicIndex {

  datatype Id = Id(conv: string, document: string)

  /** How the calls into the store and the embedder go. */
  datatype Weather = Weather(available: bool, existsAnswers: bool, ordinalsAnswer: bool, embeds: bool, writes: bool)

  const TURN_INDEX_STEP: nat := 2

  const USER: string := "[user]: "
  const ASSISTANT: string := "\n[assistant]: "

  function ExchangeDoc(user: string, reply: string): string { USER + user + ASSISTANT + reply }

  /** The longer user message goes on, behind the text of the shorter, just as the reply to that begins, and the
      rest of the reply is the other's. */
  ghost predicate Swallows(longer: string, answer: string, user: string, reply: string) {
    exists between: string :: longer == user + ASSISTANT + between && reply == between + ASSISTANT + answer
  }

  /** Two exchanges are one row exactly when they are the same or one swallows the other. */
  lemma SameRowExactly(user: string, reply: string, other: string, answer: string)
    ensures ExchangeDoc(user, reply) == ExchangeDoc(other, answer) <==>
            || (user == other && reply == answer)
            || Swallows(other, answer, user, reply)
            || Swallows(user, reply, other, answer)
  {
    hide Swallows;
    if ExchangeDoc(user, reply) == ExchangeDoc(other, answer) {
      if |user| <= |other| {
        Overlap(user, reply, other, answer);
      } else {
        Overlap(other, answer, user, reply);
      }
    }
    if Swallows(other, answer, user, reply) { SwallowedIsSame(other, answer, user, reply); }
    if Swallows(user, reply, other, answer) { SwallowedIsSame(user, reply, other, answer); }
  }

  /** Replies to one user message are told apart. */
  lemma RepliesAreToldApart(user: string, reply: string, answer: string)
    ensures ExchangeDoc(user, reply) == ExchangeDoc(user, answer) <==> reply == answer
  {
    SameRowExactly(user, reply, user, answer);
  }

  ghost predicate SeparatorAt(s: string, i: nat) { i + |ASSISTANT| <= |s| && s[i..i + |ASSISTANT|] == ASSISTANT }

  /** So are any exchanges whose user messages are free of the separator. */
  lemma PlainExchangesAreToldApart(user: string, reply: string, other: string, answer: string)
    requires forall i :: !SeparatorAt(user, i) && !SeparatorAt(other, i)
    ensures ExchangeDoc(user, reply) == ExchangeDoc(other, answer) <==> user == other && reply == answer
  {
    hide Swallows, SeparatorAt;
    SameRowExactly(user, reply, other, answer);
    if Swallows(other, answer, user, reply) { SeparatorInside(other, answer, user, reply); }
    if Swallows(user, reply, other, answer) { SeparatorInside(user, reply, other, answer); }
  }

  lemma SeparatorInside(longer: string, answer: string, user: string, reply: string)
    requires Swallows(longer, answer, user, reply)
    ensures SeparatorAt(longer, |user|)
  {}

  lemma SwallowedIsSame(longer: string, answer: string, user: string, reply: string)
    requires Swallows(longer, answer, user, reply)
    ensures ExchangeDoc(user, reply) == ExchangeDoc(longer, answer)
  {
    var between :| longer == user + ASSISTANT + between && reply == between + ASSISTANT + answer;
    assert USER + user + ASSISTANT + (between + ASSISTANT + answer)
        == USER + (user + ASSISTANT + between) + ASSISTANT + answer;
  }

  /** The separator's line break is its only one. */
  lemma BreaksOnce()
    ensures |ASSISTANT| > 0 && forall d | 0 < d < |ASSISTANT| :: ASSISTANT[d] != ASSISTANT[0]
  {}

  lemma Overlap(user: string, reply: string, longer: string, answer: string)
    requires ExchangeDoc(user, reply) == ExchangeDoc(longer, answer) && |user| <= |longer|
    ensures (user == longer && reply == answer) || Swallows(longer, answer, user, reply)
  {
    BreaksOnce();
    SpliceOverlap(USER, ASSISTANT, user, reply, longer, answer);
  }

  /** Where two splices at a separator that does not overlap itself are one text. */
  lemma SpliceOverlap(front: string, sep: string, a: string, b: string, c: string, d: string)
    requires sep != [] && forall k | 0 < k < |sep| :: sep[k] != sep[0]
    requires front + a + sep + b == front + c + sep + d && |a| <= |c|
    ensures (a == c && b == d) || exists between: string :: c == a + sep + between && b == between + sep + d
  {
    var left, right := front + a + sep + b, front + c + sep + d;
    var n, m, gap := |front| + |a|, |front| + |c|, |c| - |a|;
    assert left[|front|..n] == a && right[|front|..m] == c && left[n..n + |sep|] == sep && right[m..m + |sep|] == sep;
    assert left[n + |sep|..] == b && right[m + |sep|..] == d;
    assert right[m] == sep[0];
    assert gap < |sep| ==> left[m] == sep[gap];
    if gap >= |sep| {
      var between := c[|a| + |sep|..];
      assert c == right[|front|..n] + right[n..n + |sep|] + right[n + |sep|..m];
      assert b == left[n + |sep|..m] + left[m..m + |sep|] + left[m + |sep|..];
    }
  }

  datatype Highest = NoRows | Highest(ordinal: int)

  /** The greatest ordinal a conversation has. */
  ghost predicate IsHighest(rows: map<Id, int>, conv: string, h: Highest) {
    match h
    case NoRows => forall id | id in rows :: id.conv != conv
    case Highest(n) =>
      && (exists id | id in rows :: id.conv == conv && rows[id] == n)
      && (forall id | id in rows && id.conv == conv :: rows[id] <= n)
  }

  /** The seed, or two past the conversation's greatest ordinal if that is more; the seed alone if the store does not
      answer. */
  ghost predicate NextOrdinal(rows: map<Id, int>, conv: string, seed: int, answers: bool, ordinal: int) {
    && ordinal >= seed
    && (answers ==> forall id | id in rows && id.conv == conv :: rows[id] + 2 <= ordinal)
    && (ordinal == seed || (answers && exists id | id in rows && id.conv == conv :: rows[id] + 2 == ordinal))
  }

  /** What a run of calls may do to the rows: none is lost, and each keeps its ordinal. */
  ghost predicate Keeps(was: map<Id, int>, now: map<Id, int>) {
    forall id | id in was :: id in now && now[id] == was[id]
  }

  class Index {
    /** The ordinal of each row. */
    var rows: map<Id, int>

    constructor ()
      ensures rows == map[]
    {
      rows := map[];
    }

    method StoredMax(conv: string, answers: bool) returns (highest: Highest)
      ensures answers ==> IsHighest(rows, conv, highest)
      ensures !answers ==> highest == NoRows
    {
      highest := NoRows;
      if !answers { return; }
      var todo := rows.Keys;
      ghost var seen: map<Id, int> := map[];
      while todo != {}
        invariant todo <= rows.Keys && seen == (map id | id in rows && id !in todo :: rows[id])
        invariant IsHighest(seen, conv, highest)
      {
        var id :| id in todo;
        todo := todo - {id};
        ghost var before := seen;
        seen := map i | i in rows && i !in todo :: rows[i];
        assert forall i | i in seen :: i == id || i in before;
        if id.conv == conv && (highest == NoRows || rows[id] > highest.ordinal) {
          highest := Highest(rows[id]);
          assert id in seen;
        } else if highest.Highest? {
          ghost var w :| w in before && w.conv == conv && before[w] == highest.ordinal;
          assert w in seen;
        }
      }
      assert seen == rows;
    }

    /** Allocated from the store's own maximum; the request can only push it forward. */
    method NextTurnIndex(conv: string, seed: int, answers: bool) returns (ordinal: int)
      ensures NextOrdinal(rows, conv, seed, answers, ordinal)
    {
      var highest := StoredMax(conv, answers);
      if highest.NoRows? { return seed; }
      ordinal := if highest.ordinal + TURN_INDEX_STEP > seed then highest.ordinal + TURN_INDEX_STEP else seed;
    }

    /** index_exchange: the client's turn number is a seed, not an identity. */
    method IndexExchange(conv: string, turnIndex: int, user: string, reply: string, w: Weather) returns (indexed: bool)
      modifies this
      ensures var id := Id(conv, ExchangeDoc(user, reply));
              && (!indexed ==> rows == old(rows))
              && (indexed ==> id in rows && rows == old(rows)[id := rows[id]])
              && (w.existsAnswers && id in old(rows) ==> rows == old(rows))
              && (w.ordinalsAnswer && rows != old(rows) ==>
                    forall other | other in old(rows) && other.conv == conv :: old(rows)[other] < rows[id])
              && (rows != old(rows) ==> rows[id] >= turnIndex)
      // Exactly what it needs, and the ordinal that it gives.
      ensures var known := w.existsAnswers && Id(conv, ExchangeDoc(user, reply)) in old(rows);
              && (indexed <==> w.available && user != "" && reply != "" && (known || (w.embeds && w.writes)))
              && (indexed && !known ==> NextOrdinal(old(rows), conv, turnIndex, w.ordinalsAnswer, rows[Id(conv, ExchangeDoc(user, reply))]))
    {
      if !w.available { return false; }
      if user == "" || reply == "" { return false; }
      var id := Id(conv, ExchangeDoc(user, reply));
      if w.existsAnswers && id in rows {
        assert rows == rows[id := rows[id]];
        return true;
      }
      var ordinal := NextTurnIndex(conv, turnIndex, w.ordinalsAnswer);
      if !w.embeds { return false; }
      if !w.writes { return false; }
      rows := rows[id := ordinal];
      indexed := true;
    }

    /** import_indexed_exchange: a bundle's ordinal is kept as it is. */
    method ImportIndexedExchange(conv: string, turnIndex: int, document: string, w: Weather) returns (imported: bool)
      modifies this
      ensures var id := Id(conv, document);
              var known := w.existsAnswers && id in old(rows);
              && (imported <==> w.available && document != "" && (known || (w.embeds && w.writes)))
              && rows == if imported && !known then old(rows)[id := turnIndex] else old(rows)
    {
      if !w.available { return false; }
      if document == "" { return false; }
      var id := Id(conv, document);
      if w.existsAnswers && id in rows { return true; }
      if !w.embeds { return false; }
      if !w.writes { return false; }
      rows := rows[id := turnIndex];
      imported := true;
    }
  }

  datatype Call =
    | Exchange(conv: string, turnIndex: int, user: string, reply: string, weather: Weather)
    | Import(conv: string, turnIndex: int, document: string, weather: Weather)

  function IdOf(c: Call): Id {
    match c
    case Exchange(conv, _, user, reply, _) => Id(conv, ExchangeDoc(user, reply))
    case Import(conv, _, document, _) => Id(conv, document)
  }

  /** Both probes answer. */
  ghost predicate Probes(c: Call) { c.weather.existsAnswers && c.weather.ordinalsAnswer }

  /** The call has a text and every foreign call it makes works. */
  ghost predicate Works(c: Call) {
    && c.weather == Weather(true, true, true, true, true)
    && if c.Exchange? then c.user != "" && c.reply != "" else c.document != ""
  }

  /** A row that a run added, and which of its calls did. */
  datatype Added = Added(id: Id, call: nat)

  /** The rows a run added, in order, each by a call of its own. */
  ghost predicate AddedBy(calls: seq<Call>, added: seq<Added>) {
    && (forall j | 0 <= j < |added| :: added[j].call < |calls| && added[j].id == IdOf(calls[added[j].call]))
    && (forall i, j | 0 <= i < j < |added| :: added[i].call < added[j].call)
  }

  ghost predicate Live(calls: seq<Call>, a: Added) { a.call < |calls| && calls[a.call].Exchange? }

  /** A row indexed live comes after every row of its conversation that was there before it. */
  ghost predicate InOrder(calls: seq<Call>, was: map<Id, int>, added: seq<Added>, now: map<Id, int>) {
    && (forall j | 0 <= j < |added| :: added[j].id in now)
    && (forall id, j | id in was && id in now && 0 <= j < |added| && Live(calls, added[j]) && added[j].id.conv == id.conv ::
          now[id] < now[added[j].id])
    && (forall i, j | 0 <= i < j < |added| && Live(calls, added[j]) && added[j].id.conv == added[i].id.conv ::
          now[added[i].id] < now[added[j].id])
  }

  lemma StartsInOrder(calls: seq<Call>, rows: map<Id, int>)
    ensures Keeps(rows, rows) && InOrder(calls, rows, [], rows)
  {}

  lemma OneMore(calls: seq<Call>, was: map<Id, int>, added: seq<Added>, rows: map<Id, int>, row: Added, next: map<Id, int>)
    requires Keeps(was, rows) && InOrder(calls, was, added, rows)
    requires next == rows || (row.id !in rows && row.id in next && next == rows[row.id := next[row.id]])
    requires Live(calls, row) && next != rows ==> forall id | id in rows && id.conv == row.id.conv :: rows[id] < next[row.id]
    ensures Keeps(was, next)
    ensures InOrder(calls, was, if row.id in rows || row.id !in next then added else added + [row], next)
  {}

  function Ids(added: seq<Added>): set<Id> { set a | a in added :: a.id }

  lemma NothingAdded(calls: seq<Call>)
    ensures AddedBy(calls, []) && Ids([]) == {}
  {}

  lemma AddOne(calls: seq<Call>, added: seq<Added>, row: Added)
    requires AddedBy(calls, added) && row.call < |calls| && row.id == IdOf(calls[row.call])
    requires forall j | 0 <= j < |added| :: added[j].call < row.call
    ensures AddedBy(calls, added + [row]) && Ids(added + [row]) == Ids(added) + {row.id}
  {}

  /** One call, of either kind. */
  method Make(index: Index, c: Call) returns (done: bool)
    modifies index
    ensures index.rows == old(index.rows)
              || (IdOf(c) in index.rows && index.rows == old(index.rows)[IdOf(c) := index.rows[IdOf(c)]])
    ensures Works(c) ==> IdOf(c) in index.rows
    ensures Probes(c) && IdOf(c) in old(index.rows) ==> index.rows == old(index.rows)
    ensures Probes(c) && c.Exchange? && index.rows != old(index.rows) ==>
              forall id | id in old(index.rows) && id.conv == IdOf(c).conv :: old(index.rows)[id] < index.rows[IdOf(c)]
  {
    match c {
      case Exchange(conv, turnIndex, user, reply, weather) =>
        done := index.IndexExchange(conv, turnIndex, user, reply, weather);
      case Import(conv, turnIndex, document, weather) =>
        done := index.ImportIndexedExchange(conv, turnIndex, document, weather);
    }
  }

  /**
    Any run of calls, with any client turn numbers, even falling ones. No row is ever lost, whatever
    fails, and a call that works leaves its row; and while the probes answer, every row keeps its
    ordinal and live rows only move forward.
    */
  method Run(index: Index, calls: seq<Call>) returns (ghost added: seq<Added>)
    modifies index
    ensures forall id | id in old(index.rows) :: id in index.rows
    ensures forall c | c in calls && Works(c) :: IdOf(c) in index.rows
    ensures AddedBy(calls, added) && forall j | 0 <= j < |added| :: added[j].id !in old(index.rows)
    ensures index.rows.Keys == old(index.rows).Keys + Ids(added)
    ensures (forall c | c in calls :: Probes(c)) ==>
              Keeps(old(index.rows), index.rows) && InOrder(calls, old(index.rows), added, index.rows)
  {
    hide Keeps, InOrder, IdOf, Works, AddedBy, Ids;
    NothingAdded(calls);
    added := [];
    StartsInOrder(calls, index.rows);
    for n := 0 to |calls|
      invariant forall m | 0 <= m < n && Works(calls[m]) :: IdOf(calls[m]) in index.rows
      invariant AddedBy(calls, added) && forall j | 0 <= j < |added| :: added[j].call < n && added[j].id !in old(index.rows)
      invariant index.rows.Keys == old(index.rows).Keys + Ids(added)
      invariant (forall c | c in calls :: Probes(c)) ==>
                  Keeps(old(index.rows), index.rows) && InOrder(calls, old(index.rows), added, index.rows)
    {
      ghost var before, row := index.rows, Added(IdOf(calls[n]), n);
      var done := Make(index, calls[n]);
      if forall c | c in calls :: Probes(c) {
        assert Probes(calls[n]);
        OneMore(calls, old(index.rows), added, before, row, index.rows);
      }
      if row.id !in before && row.id in index.rows {
        AddOne(calls, added, row);
        added := added + [row];
      }
    }
  }

  // ---------------------------------------------------------------------------------
  // The episodic half of a conversation merge
  // ---------------------------------------------------------------------------------

  function Turns(rows: map<Id, int>, conv: string): set<int> { set id | id in rows && id.conv == conv :: rows[id] }

  /** Some row of the conversation has the ordinal. */
  ghost predicate UsesTurn(rows: map<Id, int>, conv: string, ordinal: int) {
    exists id | id in rows :: id.conv == conv && rows[id] == ordinal
  }

  /** The row stands for one of the source, at that one's ordinal, which the destination did not use. */
  ghost predicate CopyOf(was: map<Id, int>, src: string, dst: string, id: Id, ordinal: int) {
    && id.conv == dst && Id(src, id.document) in was && was[Id(src, id.document)] == ordinal
    && !UsesTurn(was, dst, ordinal)
  }

  /** An exchange is copied unless the destination already uses its turn number, whatever the text there. */
  method MergeExchanges(index: Index, src: string, dst: string, w: Weather)
    requires src != dst
    modifies index
    ensures forall id | id in old(index.rows) :: id in index.rows
    ensures w.existsAnswers ==> Keeps(old(index.rows), index.rows)
    ensures forall id | id in index.rows && id.conv != dst ::
              id in old(index.rows) && index.rows[id] == old(index.rows)[id]
    ensures w.available && w.embeds && w.writes ==>
              forall document | Id(src, document) in old(index.rows) && document != "" ::
                Id(dst, document) in index.rows <==>
                || Id(dst, document) in old(index.rows)
                || !UsesTurn(old(index.rows), dst, old(index.rows)[Id(src, document)])
    // Whatever fails, a row is as it was or a copy, at the ordinal it has at the source.
    ensures forall id | id in index.rows ::
              || (id in old(index.rows) && index.rows[id] == old(index.rows)[id])
              || CopyOf(old(index.rows), src, dst, id, index.rows[id])
  {
    var start := index.rows;
    var taken := Turns(start, dst);
    var todo := set id | id in start && id.conv == src && start[id] !in taken;
    ghost var all := todo;
    while todo != {}
      invariant todo <= all
      invariant forall id | id in start :: id in index.rows
      invariant forall id | id in start && (w.existsAnswers || id.conv != dst) :: index.rows[id] == start[id]
      invariant forall id | id in index.rows && id !in start :: id.conv == dst && Id(src, id.document) in all - todo
      invariant forall id | id in index.rows ::
                  (id in start && index.rows[id] == start[id]) || CopyOf(start, src, dst, id, index.rows[id])
      invariant w.available && w.embeds && w.writes ==>
                  forall id | id in all - todo && id.document != "" :: Id(dst, id.document) in index.rows
    {
      var id :| id in todo;
      todo := todo - {id};
      var imported := index.ImportIndexedExchange(dst, start[id], id.document, w);
      assert id == Id(src, id.document);
    }
  }
}
