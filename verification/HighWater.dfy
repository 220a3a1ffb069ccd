/**
  The high-water marks of compactor/backup.py: per conversation and field, the best value
  seen recently, against which a slow bleed is measured. A reading below half the mark
  raises one alarm and becomes the new mark.
  */
module HighWater {
  import opened FactRows

  datatype Field = FactsUnion | FactsBytes | PersonaBytes | SummaryBytes

  const FIELDS: seq<Field> := [FactsUnion, FactsBytes, PersonaBytes, SummaryBytes]

  /** One conversation's line of the census. */
  datatype Row = Row(facts: nat, archivedFacts: nat, factsBytes: nat, personaBytes: nat, summaryBytes: nat)

  type Census = map<string, Row>

  /** A conversation's marks, field by field; 0 where there is no baseline. */
  type Marks = map<Field, nat>

  type Hwm = map<string, Marks>

  datatype Loss = Loss(conv: string, field: Field, mark: nat, value: nat)

  function Reading(census: Census, conv: string, f: Field): nat {
    if conv !in census then 0 else
      match f
      case FactsUnion => census[conv].facts + census[conv].archivedFacts
      case FactsBytes => census[conv].factsBytes
      case PersonaBytes => census[conv].personaBytes
      case SummaryBytes => census[conv].summaryBytes
  }

  /** The characters of the facts' texts. */
  function Letters(facts: seq<Fact>): nat { if facts == [] then 0 else |facts[0].text| + Letters(facts[1..]) }

  /** The census of a conversation's two layers of facts. */
  function LineOf(active: seq<Fact>, archive: seq<Fact>, personaBytes: nat, summaryBytes: nat): Row {
    Row(|active|, |archive|, Letters(active) + Letters(archive), personaBytes, summaryBytes)
  }

  function Level(hwm: Hwm, conv: string, f: Field): nat {
    if conv in hwm && f in hwm[conv] then hwm[conv][f] else 0
  }

  // ---------------------------------------------------------------------------------
  // One field of one conversation
  // ---------------------------------------------------------------------------------

  predicate Alarm(mark: nat, value: nat) { mark > 0 && 2 * value < mark }

  function Next(mark: nat, value: nat): nat {
    if mark == 0 || Alarm(mark, value) || value > mark then value else mark
  }

  /** The mark after a run of readings. */
  function MarkAfter(mark: nat, values: seq<nat>): nat {
    if values == [] then mark else Next(MarkAfter(mark, values[..|values| - 1]), values[|values| - 1])
  }

  function Alarms(mark: nat, values: seq<nat>): nat {
    if values == [] then 0 else
      Alarms(mark, values[..|values| - 1])
      + if Alarm(MarkAfter(mark, values[..|values| - 1]), values[|values| - 1]) then 1 else 0
  }

  /** However slow the bleed: while no alarm sounds, every reading is at least half of every
      earlier one and half of the mark the run began with. */
  lemma {:induction false} NoSilentBleed(mark: nat, values: seq<nat>)
    requires Alarms(mark, values) == 0
    ensures forall i, j | 0 <= j <= i < |values| :: 2 * values[i] >= values[j] && 2 * values[i] >= mark
    ensures MarkAfter(mark, values) >= mark && forall j | 0 <= j < |values| :: MarkAfter(mark, values) >= values[j]
  {
    if values != [] {
      var init := values[..|values| - 1];
      NoSilentBleed(mark, init);
      assert forall j | 0 <= j < |init| :: init[j] == values[j];
    }
  }

  ghost predicate NeverRises(peak: nat, values: seq<nat>) {
    && (values != [] ==> values[0] <= peak)
    && forall i, j | 0 <= i < j < |values| :: values[j] <= values[i]
  }

  function Log2(n: nat): nat { if n < 2 then 0 else 1 + Log2(n / 2) }

  lemma {:induction false} Log2Monotone(a: nat, b: nat)
    requires a <= b
    ensures Log2(a) <= Log2(b)
  {
    if a >= 2 {
      Log2Monotone(a / 2, b / 2);
    }
  }

  /** The most alarms that a field can still raise from a mark it never rises above again. */
  function AlarmBudget(mark: nat): nat { Log2(mark + 1) }

  lemma AlarmSpendsBudget(mark: nat, value: nat)
    requires Alarm(mark, value)
    ensures AlarmBudget(value) + 1 <= AlarmBudget(mark)
  {
    Log2Monotone(value + 1, (mark + 1) / 2);
  }

  /** A field that never rises from its peak raises at most floor(log2 (peak + 1)) alarms ... */
  lemma {:induction false} AlarmsAreFew(peak: nat, values: seq<nat>)
    requires NeverRises(peak, values)
    ensures Alarms(peak, values) + AlarmBudget(MarkAfter(peak, values)) <= AlarmBudget(peak)
    ensures values != [] ==> values[|values| - 1] <= MarkAfter(peak, values)
    ensures Alarms(peak, values) <= Log2(peak + 1)
  {
    if values != [] {
      var init, value := values[..|values| - 1], values[|values| - 1];
      AlarmsAreFew(peak, init);
      if Alarm(MarkAfter(peak, init), value) {
        AlarmSpendsBudget(MarkAfter(peak, init), value);
      }
    }
  }

  /** ... and from every peak just so many can sound: at each of them just less than half is left. */
  lemma {:induction false} BoundIsReached(peak: nat) returns (values: seq<nat>)
    ensures NeverRises(peak, values) && Alarms(peak, values) == Log2(peak + 1)
  {
    values := [];
    if peak > 0 {
      var rest := BoundIsReached((peak - 1) / 2);
      values := [(peak - 1) / 2] + rest;
      AlarmsAfterFirst(peak, (peak - 1) / 2, rest);
    }
  }

  /** The bound in powers of two: n alarms take a peak of at least 2^n - 1. */
  lemma {:induction false} Log2Exactly(n: nat, m: nat)
    requires m > 0
    ensures n <= Log2(m) <==> Power2(n) <= m
  {
    if n > 0 {
      if m >= 2 { Log2Exactly(n - 1, m / 2); }
      PowerGrows(n);
    }
  }

  function Power2(n: nat): nat { if n == 0 then 1 else 2 * Power2(n - 1) }

  lemma {:induction false} PowerGrows(n: nat)
    ensures Power2(n) > n
  {
    if n > 0 { PowerGrows(n - 1); }
  }

  lemma {:induction false} AlarmsAfterFirst(mark: nat, value: nat, values: seq<nat>)
    ensures MarkAfter(mark, [value] + values) == MarkAfter(Next(mark, value), values)
    ensures Alarms(mark, [value] + values) == Alarms(Next(mark, value), values) + if Alarm(mark, value) then 1 else 0
  {
    var all := [value] + values;
    if values == [] {
      assert all[..0] == [];
    } else {
      assert all[..|all| - 1] == [value] + values[..|values| - 1];
      AlarmsAfterFirst(mark, value, values[..|values| - 1]);
    }
  }

  // ---------------------------------------------------------------------------------
  // The whole table
  // ---------------------------------------------------------------------------------

  /** Every field of every conversation has moved by the rule for one field. */
  ghost predicate Follows(prev: Hwm, census: Census, hwm: Hwm) {
    forall conv, f :: Level(hwm, conv, f) == Next(Level(prev, conv, f), Reading(census, conv, f))
  }

  predicate Raised(prev: Hwm, census: Census, l: Loss) {
    && l.mark == Level(prev, l.conv, l.field) && l.value == Reading(census, l.conv, l.field)
    && Alarm(l.mark, l.value)
  }

  /** The inner loop: one conversation's marks and losses. */
  method UpdateConversation(prev: Hwm, census: Census, conv: string) returns (marks: Marks, losses: set<Loss>)
    ensures forall f :: f in marks && marks[f] == Next(Level(prev, conv, f), Reading(census, conv, f))
    ensures forall l :: l in losses <==> l.conv == conv && Raised(prev, census, l)
  {
    marks, losses := map[], {};
    for i := 0 to |FIELDS|
      invariant forall j | 0 <= j < i ::
                  FIELDS[j] in marks && marks[FIELDS[j]] == Next(Level(prev, conv, FIELDS[j]), Reading(census, conv, FIELDS[j]))
      invariant forall l :: l in losses <==> l.conv == conv && l.field in FIELDS[..i] && Raised(prev, census, l)
    {
      var f := FIELDS[i];
      var mark, value := Level(prev, conv, f), Reading(census, conv, f);
      if mark == 0 {
        marks := marks[f := value];
      } else if 2 * value < mark {
        losses := losses + {Loss(conv, f, mark, value)};
        marks := marks[f := value];
      } else {
        marks := marks[f := if value > mark then value else mark];
      }
    }
    forall f: Field
      ensures f in FIELDS && f in FIELDS[..|FIELDS|]
      ensures f in marks && marks[f] == Next(Level(prev, conv, f), Reading(census, conv, f))
    {
      match f
      case FactsUnion => assert FIELDS[0] == f;
      case FactsBytes => assert FIELDS[1] == f;
      case PersonaBytes => assert FIELDS[2] == f;
      case SummaryBytes => assert FIELDS[3] == f;
    }
  }

  /** _census_hwm_update. A conversation that has nothing left is dropped from the table. */
  method CensusHwmUpdate(prev: Hwm, census: Census) returns (hwm: Hwm, losses: set<Loss>)
    ensures Follows(prev, census, hwm)
    ensures forall l :: l in losses <==> Raised(prev, census, l)
    ensures forall conv | conv in hwm :: exists f :: Level(hwm, conv, f) > 0
  {
    hwm, losses := map[], {};
    var todo := prev.Keys + census.Keys;
    while todo != {}
      invariant todo <= prev.Keys + census.Keys && hwm.Keys !! todo
      invariant forall conv, f | conv !in todo ::
                  Level(hwm, conv, f) == Next(Level(prev, conv, f), Reading(census, conv, f))
      invariant forall l :: l in losses <==> l.conv !in todo && Raised(prev, census, l)
      invariant forall conv | conv in hwm :: exists f :: Level(hwm, conv, f) > 0
    {
      var conv :| conv in todo;
      var marks, lost := UpdateConversation(prev, census, conv);
      losses := losses + lost;
      if exists f | f in marks :: marks[f] > 0 {
        ghost var f :| f in marks && marks[f] > 0;
        hwm := hwm[conv := marks];
        assert Level(hwm, conv, f) > 0;
      }
      todo := todo - {conv};
    }
  }

  lemma {:induction false} LettersConcat(a: seq<Fact>, b: seq<Fact>)
    ensures Letters(a + b) == Letters(a) + Letters(b)
  {
    if a == [] {
      assert a + b == b;
    } else {
      assert (a + b)[1..] == a[1..] + b;
      LettersConcat(a[1..], b);
    }
  }

  ghost function Without(facts: seq<Fact>, j: nat): (r: seq<Fact>)
    requires j < |facts|
    ensures |r| == |facts| - 1
  {
    facts[..j] + facts[j + 1..]
  }

  lemma LettersWithout(facts: seq<Fact>, j: nat)
    requires j < |facts|
    ensures Letters(facts) == Letters(Without(facts, j)) + |facts[j].text|
    ensures multiset(facts) == multiset(Without(facts, j)) + multiset{facts[j]}
  {
    LettersConcat(facts[..j], facts[j + 1..]);
    LettersConcat(facts[..j], facts[j..]);
    assert facts == facts[..j] + facts[j..] && facts == facts[..j] + [facts[j]] + facts[j + 1..];
    assert facts[j..][1..] == facts[j + 1..];
  }

  lemma SameWithout(a: multiset<Fact>, b: multiset<Fact>, f: Fact)
    requires a + multiset{f} == b + multiset{f}
    ensures a == b
  {
    forall g ensures a[g] == b[g] { assert (a + multiset{f})[g] == (b + multiset{f})[g]; }
  }

  lemma {:induction false} SameLetters(a: seq<Fact>, b: seq<Fact>)
    requires multiset(a) == multiset(b)
    ensures Letters(a) == Letters(b) && |a| == |b|
    decreases |a|
  {
    hide Letters, Without;
    if a == [] {
      assert |multiset(b)| == 0 && b == a;
    } else {
      assert a[0] in multiset(b);
      var j :| 0 <= j < |b| && b[j] == a[0];
      LettersWithout(a, 0);
      LettersWithout(b, j);
      SameWithout(multiset(Without(a, 0)), multiset(Without(b, j)), a[0]);
      SameLetters(Without(a, 0), Without(b, j));
    }
  }

  /** Moving facts between the two layers, in any number and any order, changes no reading, so no loss is reported
      for it and no mark moves. */
  lemma MovingIsNoLoss(prev: Hwm, census: Census, conv: string, active: seq<Fact>, archive: seq<Fact>,
                       active': seq<Fact>, archive': seq<Fact>, personaBytes: nat, summaryBytes: nat)
    requires multiset(active) + multiset(archive) == multiset(active') + multiset(archive')
    ensures var was := census[conv := LineOf(active, archive, personaBytes, summaryBytes)];
            var now := census[conv := LineOf(active', archive', personaBytes, summaryBytes)];
            && Reading(was, conv, FactsUnion) == |active + archive| && Reading(was, conv, FactsBytes) == Letters(active + archive)
            && Reading(was, conv, PersonaBytes) == personaBytes && Reading(was, conv, SummaryBytes) == summaryBytes
            && (forall c, f :: Reading(now, c, f) == Reading(was, c, f))
            && (forall l :: Raised(prev, now, l) <==> Raised(prev, was, l))
  {
    assert multiset(active + archive) == multiset(active' + archive');
    SameLetters(active + archive, active' + archive');
    LettersConcat(active, archive);
    LettersConcat(active', archive');
    hide Letters;
  }

  /** A measure that falls below half from one cycle to the next is reported under its own name, whatever went before. */
  lemma FallIsReported(prev: Hwm, census: Census, hwm: Hwm, next: Census, conv: string)
    requires Follows(prev, census, hwm) && conv in census && conv in next
    ensures var was, now := census[conv], next[conv];
            && (2 * (now.facts + now.archivedFacts) < was.facts + was.archivedFacts ==>
                  exists l :: Raised(hwm, next, l) && l.conv == conv && l.field == FactsUnion)
            && (2 * now.factsBytes < was.factsBytes ==>
                  exists l :: Raised(hwm, next, l) && l.conv == conv && l.field == FactsBytes)
            && (2 * now.personaBytes < was.personaBytes ==>
                  exists l :: Raised(hwm, next, l) && l.conv == conv && l.field == PersonaBytes)
            && (2 * now.summaryBytes < was.summaryBytes ==>
                  exists l :: Raised(hwm, next, l) && l.conv == conv && l.field == SummaryBytes)
  {
    FieldFallIsReported(prev, census, hwm, next, conv, FactsUnion);
    FieldFallIsReported(prev, census, hwm, next, conv, FactsBytes);
    FieldFallIsReported(prev, census, hwm, next, conv, PersonaBytes);
    FieldFallIsReported(prev, census, hwm, next, conv, SummaryBytes);
  }

  lemma FieldFallIsReported(prev: Hwm, census: Census, hwm: Hwm, next: Census, conv: string, f: Field)
    requires Follows(prev, census, hwm)
    ensures 2 * Reading(next, conv, f) < Reading(census, conv, f) ==>
              exists l :: Raised(hwm, next, l) && l.conv == conv && l.field == f
  {
    assert Level(hwm, conv, f) == Next(Level(prev, conv, f), Reading(census, conv, f));
    var l := Loss(conv, f, Level(hwm, conv, f), Reading(next, conv, f));
    assert 2 * Reading(next, conv, f) < Reading(census, conv, f) ==> Raised(hwm, next, l);
  }

  /** A conversation that is gone from the census is reported in every measure that it had. */
  lemma VanishedIsReported(prev: Hwm, census: Census, hwm: Hwm, next: Census, conv: string, f: Field)
    requires Follows(prev, census, hwm) && conv !in next && Reading(census, conv, f) > 0
    ensures exists l :: Raised(hwm, next, l) && l.conv == conv && l.field == f
  {
    FieldFallIsReported(prev, census, hwm, next, conv, f);
  }

  function Readings(censuses: seq<Census>, conv: string, f: Field): (r: seq<nat>)
    ensures |r| == |censuses| && forall i | 0 <= i < |r| :: r[i] == Reading(censuses[i], conv, f)
  {
    seq(|censuses|, i requires 0 <= i < |censuses| => Reading(censuses[i], conv, f))
  }

  /** The tables of a run of backup cycles, each computed from the one before. */
  ghost predicate IsRun(marks: seq<Hwm>, censuses: seq<Census>) {
    |marks| == |censuses| + 1 && forall i | 0 <= i < |censuses| :: Follows(marks[i], censuses[i], marks[i + 1])
  }

  lemma {:induction false} RunAtCycle(marks: seq<Hwm>, censuses: seq<Census>, conv: string, f: Field, i: nat)
    requires IsRun(marks, censuses) && i <= |censuses|
    ensures Level(marks[i], conv, f) == MarkAfter(Level(marks[0], conv, f), Readings(censuses, conv, f)[..i])
  {
    hide Level, Reading;
    if i > 0 {
      var readings := Readings(censuses, conv, f);
      RunAtCycle(marks, censuses, conv, f, i - 1);
      assert readings[..i][..i - 1] == readings[..i - 1];
      assert Follows(marks[i - 1], censuses[i - 1], marks[i]);
    }
  }

  /** Over a run of cycles each field of each conversation behaves as one field does. */
  lemma RunIsFieldwise(marks: seq<Hwm>, censuses: seq<Census>, conv: string, f: Field)
    requires IsRun(marks, censuses)
    ensures forall i | 0 <= i <= |censuses| ::
              Level(marks[i], conv, f) == MarkAfter(Level(marks[0], conv, f), Readings(censuses, conv, f)[..i])
  {
    forall i | 0 <= i <= |censuses|
      ensures Level(marks[i], conv, f) == MarkAfter(Level(marks[0], conv, f), Readings(censuses, conv, f)[..i])
    {
      RunAtCycle(marks, censuses, conv, f, i);
    }
  }

  lemma {:induction false} NoAlarms(mark: nat, values: seq<nat>)
    requires forall i | 0 <= i < |values| :: !Alarm(MarkAfter(mark, values[..i]), values[i])
    ensures Alarms(mark, values) == 0
  {
    if values != [] {
      var init := values[..|values| - 1];
      forall i | 0 <= i < |init| ensures !Alarm(MarkAfter(mark, init[..i]), init[i]) {
        assert init[..i] == values[..i];
      }
      NoAlarms(mark, init);
    }
  }

  /** A run of cycles that never reported the field has not let it halve, at any speed. */
  lemma UnreportedFieldHasNotHalved(marks: seq<Hwm>, censuses: seq<Census>, conv: string, f: Field)
    requires IsRun(marks, censuses)
    requires forall i | 0 <= i < |censuses| ::
               !Raised(marks[i], censuses[i], Loss(conv, f, Level(marks[i], conv, f), Reading(censuses[i], conv, f)))
    ensures forall i, j | 0 <= j <= i < |censuses| :: 2 * Reading(censuses[i], conv, f) >= Reading(censuses[j], conv, f)
    ensures forall i | 0 <= i < |censuses| :: 2 * Reading(censuses[i], conv, f) >= Level(marks[0], conv, f)
  {
    var readings, mark := Readings(censuses, conv, f), Level(marks[0], conv, f);
    RunIsFieldwise(marks, censuses, conv, f);
    NoAlarms(mark, readings);
    NoSilentBleed(mark, readings);
    assert forall i | 0 <= i < |censuses| :: 2 * readings[i] >= mark;
  }
}
