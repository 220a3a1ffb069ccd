/**
  Fitting one extraction request into a token budget, in compactor/facts.py: first the store is
  shed, then the assistant reply is cut, and only then the user message.
  */
module ExtractionFit {
  import opened FactRows
  import opened FactBudget
  import TextClean

  const BARE_NOTE: string := "[" + "...trimmed to fit the fact-extraction input budget]"
  const TRIM_NOTE: string := "\n" + BARE_NOTE

  const PROMPT_TOKENS: nat := 1359 / 4
  const SCAFFOLD_CHARS: nat := 16 + 27 + 14
  const NO_FACTS_CHARS: nat := 6

  function Tokens(text: string): nat { |text| / 4 }

  function Max(a: int, b: int): int { if a > b then a else b }

  /** Characters of the user-side content apart from one of its two messages. */
  function Around(other: string, facts: seq<Held>): nat {
    SCAFFOLD_CHARS + |other| + if facts == [] then NO_FACTS_CHARS else Chars(facts) - 1
  }

  /** The request as it is assembled around one message. */
  function Payload(text: string, around: nat): nat { PROMPT_TOKENS + (around + |text|) / 4 }

  function Assembled(user: string, reply: string, facts: seq<Held>): nat { Payload(reply, Around(user, facts)) }

  /** The facts of the request, one line each. */
  function ExistingLines(facts: seq<Held>): string {
    if facts == [] then "(none)"
    else if |facts| == 1 then Line(facts[0])
    else ExistingLines(facts[..|facts| - 1]) + "\n" + Line(facts[|facts| - 1])
  }

  /** The user-side content as it is sent. */
  function Content(user: string, reply: string, facts: seq<Held>): string {
    "EXISTING FACTS:\n" + ExistingLines(facts) + "\n\n" + "LATEST EXCHANGE:\n[user]: " + user + "\n[assistant]: " + reply
  }

  lemma {:induction false} LinesLength(facts: seq<Held>)
    ensures |ExistingLines(facts)| == if facts == [] then NO_FACTS_CHARS else Chars(facts) - 1
  {
    if |facts| == 1 {
      assert facts[..0] == [];
    } else if facts != [] {
      LinesLength(facts[..|facts| - 1]);
    }
  }

  /** The request costs what its two texts cost: the prompt's, and the content's as it is sent. */
  lemma AssembledIsContent(user: string, reply: string, facts: seq<Held>)
    ensures Assembled(user, reply, facts) == PROMPT_TOKENS + |Content(user, reply, facts)| / 4
  {
    LinesLength(facts);
    hide ExistingLines, Chars;
  }

  // ---------------------------------------------------------------------------------
  // Cutting one message
  // ---------------------------------------------------------------------------------

  function Truncated(text: string, maxTokens: int): (r: string)
    ensures Tokens(text) <= maxTokens ==> r == text
  {
    if Tokens(text) <= maxTokens then text else
      var keep := Max(0, maxTokens - Tokens(TRIM_NOTE) - 1) * 4;
      var head := text[..if keep < |text| then keep else |text|];
      TextClean.TrimLeft(TextClean.TrimRight(head, false) + TRIM_NOTE, false)
  }

  ghost predicate EndsWithNote(text: string) { |BARE_NOTE| <= |text| && text[|text| - |BARE_NOTE|..] == BARE_NOTE }

  lemma NoteShape()
    ensures |BARE_NOTE| == 52 && TRIM_NOTE == ['\n'] + BARE_NOTE && Tokens(TRIM_NOTE) == 13
    ensures !TextClean.IsSpace(BARE_NOTE[0]) && TextClean.IsSpace('\n')
  {
    assert BARE_NOTE[0] == '[';
  }

  ghost predicate Blank(s: string) { forall k | 0 <= k < |s| :: TextClean.IsSpace(s[k]) }

  lemma {:induction false} TrimRightTakesBlanks(s: string)
    ensures TextClean.TrimRight(s, false) <= s && Blank(s[|TextClean.TrimRight(s, false)|..])
    ensures TextClean.TrimRight(s, false) == [] || !TextClean.IsSpace(TextClean.TrimRight(s, false)[|TextClean.TrimRight(s, false)| - 1])
    decreases |s|
  {
    hide TextClean.IsSpace;
    if s != [] && TextClean.IsSpace(s[|s| - 1]) {
      var init := s[..|s| - 1];
      TrimRightTakesBlanks(init);
      var n := |TextClean.TrimRight(init, false)|;
      assert s[n..] == init[n..] + [s[|s| - 1]];
    }
  }

  lemma {:induction false} TrimLeftTakesBlanks(s: string) returns (i: nat)
    ensures i <= |s| && TextClean.TrimLeft(s, false) == s[i..] && Blank(s[..i]) && (i < |s| ==> !TextClean.IsSpace(s[i]))
    decreases |s|
  {
    hide TextClean.IsSpace;
    i := 0;
    if s != [] && TextClean.IsSpace(s[0]) {
      i := TrimLeftTakesBlanks(s[1..]);
      i := i + 1;
    }
  }

  /** Of a message that is cut to `maxTokens`, all but 14 of them, at four characters each, go on showing its opening,
      blanks at the two ends apart. */
  lemma TruncatedKeeps(text: string, maxTokens: int) returns (i: nat, j: nat)
    requires Tokens(text) > maxTokens
    ensures i <= j <= Max(0, 4 * (maxTokens - 14)) <= |text|
    ensures Blank(text[..i]) && Blank(text[j..Max(0, 4 * (maxTokens - 14))])
    ensures Truncated(text, maxTokens) == if i == j then BARE_NOTE else text[i..j] + TRIM_NOTE
  {
    TruncatedIs(text, maxTokens);
    hide BARE_NOTE, TRIM_NOTE, TextClean.IsSpace, TextClean.TrimLeft, TextClean.TrimRight, Truncated, Blank;
    var keep := Max(0, 4 * (maxTokens - 14));
    TrimRightTakesBlanks(text[..keep]);
    var kept := TextClean.TrimRight(text[..keep], false);
    j := |kept|;
    i := 0;
    assert text[..keep][j..] == text[j..keep] && kept == text[..j] && Blank(text[..0]) by { hide *; NoBlanks(); }
    if kept == [] {
      assert kept + TRIM_NOTE == TRIM_NOTE;
    } else {
      i := HeadIsTrimmed(kept);
      assert text[..j][i..] == text[i..j] && text[..j][..i] == text[..i];
    }
  }

  lemma NoBlanks()
    ensures Blank([])
  {}

  lemma TruncatedIs(text: string, maxTokens: int)
    requires Tokens(text) > maxTokens
    ensures var keep := Max(0, 4 * (maxTokens - 14));
            && keep <= |text|
            && Truncated(text, maxTokens) == TextClean.TrimLeft(TextClean.TrimRight(text[..keep], false) + TRIM_NOTE, false)
    ensures TextClean.TrimLeft(TRIM_NOTE, false) == BARE_NOTE
  {
    NoteShape();
    hide BARE_NOTE, TRIM_NOTE, TextClean.IsSpace, TextClean.TrimRight;
    assert TRIM_NOTE[1..] == BARE_NOTE;
  }

  /** What stands before the note keeps it, unless it is blank. */
  lemma HeadIsTrimmed(kept: string) returns (i: nat)
    requires kept != [] && !TextClean.IsSpace(kept[|kept| - 1])
    ensures i < |kept| && Blank(kept[..i]) && TextClean.TrimLeft(kept + TRIM_NOTE, false) == kept[i..] + TRIM_NOTE
  {
    hide TRIM_NOTE, TextClean.IsSpace, TextClean.TrimLeft, Blank;
    i := TrimLeftTakesBlanks(kept + TRIM_NOTE);
    assert i < |kept| by { LastIsLeft(kept, TRIM_NOTE, i); }
    assert (kept + TRIM_NOTE)[i..] == kept[i..] + TRIM_NOTE;
    assert (kept + TRIM_NOTE)[..i] == kept[..i];
  }

  lemma LastIsLeft(kept: string, tail: string, i: nat)
    requires kept != [] && !TextClean.IsSpace(kept[|kept| - 1]) && i <= |kept + tail| && Blank((kept + tail)[..i])
    ensures i < |kept|
  {
    assert forall k | 0 <= k < i :: (kept + tail)[..i][k] == (kept + tail)[k];
    assert (kept + tail)[|kept| - 1] == kept[|kept| - 1];
  }

  /** A cut message ends with the note, is never blank, and costs what was asked plus the note. */
  lemma TruncatedShape(text: string, maxTokens: int)
    requires Tokens(text) > maxTokens
    ensures EndsWithNote(Truncated(text, maxTokens))
    ensures maxTokens < 15 ==> Truncated(text, maxTokens) == BARE_NOTE
    ensures |Truncated(text, maxTokens)| <= Max(52, 4 * maxTokens - 3)
  {
    hide Truncated, Blank, EndsWithNote, BARE_NOTE, TRIM_NOTE;
    var i, j := TruncatedKeeps(text, maxTokens);
    NoteIsBehind(text[i..j]);
    var n := |Truncated(text, maxTokens)|;
    assert n == if i == j then 52 else j - i + 53;
  }

  lemma NoteIsBehind(head: string)
    ensures EndsWithNote(head + TRIM_NOTE) && EndsWithNote(BARE_NOTE)
    ensures |head + TRIM_NOTE| == |head| + 53 && |BARE_NOTE| == 52
  {
    NoteShape();
    hide BARE_NOTE, TRIM_NOTE;
    assert head + TRIM_NOTE == (head + ['\n']) + BARE_NOTE;
  }

  /** One round: by as many tokens as the request is over. */
  function CutOnce(text: string, around: nat, budget: int): string {
    var over := Payload(text, around) - budget;
    if over <= 0 then text else Truncated(text, Tokens(text) - over)
  }

  function Cut(text: string, around: nat, budget: int): string {
    CutOnce(CutOnce(text, around, budget), around, budget)
  }

  method CutMessage(text: string, around: nat, budget: int) returns (cut: string)
    ensures cut == Cut(text, around, budget)
  {
    hide Truncated;
    cut := text;
    for round := 0 to 2
      invariant round == 0 ==> cut == text
      invariant round == 1 ==> cut == CutOnce(text, around, budget)
      invariant round == 2 ==> cut == Cut(text, around, budget)
    {
      var over := Payload(cut, around) - budget;
      if over <= 0 { break; }
      cut := Truncated(cut, Tokens(cut) - over);
    }
  }

  /** One round is enough, or leaves the bare note, which no further round changes. */
  lemma CutOnceSettles(text: string, around: nat, budget: int)
    ensures var cut := CutOnce(text, around, budget);
            Payload(cut, around) <= budget || cut == BARE_NOTE
  {
    hide Truncated, BARE_NOTE, EndsWithNote;
    var over := Payload(text, around) - budget;
    if over > 0 {
      var target := Tokens(text) - over;
      TruncatedShape(text, target);
      if target >= 15 {
        assert |Truncated(text, target)| <= 4 * target - 3;
      }
    }
  }

  /** Two rounds end within the budget exactly when nothing had to be cut or the bare note fits. */
  lemma CutExactly(text: string, around: nat, budget: int)
    ensures var cut := Cut(text, around, budget);
            && (Payload(cut, around) <= budget <==> Payload(text, around) <= budget || Payload(BARE_NOTE, around) <= budget)
            && (Payload(cut, around) > budget ==> cut == BARE_NOTE)
            && (Payload(text, around) <= budget ==> cut == text)
            && (cut != text ==> EndsWithNote(cut))
  {
    var once := CutOnce(text, around, budget);
    CutOnceSettles(text, around, budget);
    NoteShape();
    var over := Payload(text, around) - budget;
    if over > 0 {
      TruncatedShape(text, Tokens(text) - over);
      var again := Payload(once, around) - budget;
      if again > 0 { TruncatedShape(once, Tokens(once) - again); }
      hide Truncated, BARE_NOTE;
    }
  }

  // ---------------------------------------------------------------------------------
  // Shedding the store
  // ---------------------------------------------------------------------------------

  /** min() by (last_used, added_turn): the first of the stalest entries. */
  function Stalest(xs: seq<Held>): (i: nat)
    requires xs != []
    ensures i < |xs| && forall j | 0 <= j < |xs| :: FreshFirst(xs[j], xs[i])
    ensures forall j | 0 <= j < i :: !FreshFirst(xs[i], xs[j])
  {
    if |xs| == 1 then 0 else
      var i := Stalest(xs[..|xs| - 1]);
      if FreshFirst(xs[|xs| - 1], xs[i]) then i else |xs| - 1
  }

  function DropStalest(xs: seq<Held>): (r: seq<Held>)
    requires xs != []
    ensures |r| == |xs| - 1
  {
    var i := Stalest(xs);
    xs[..i] + xs[i + 1..]
  }

  function Shed(kept: seq<Held>, user: string, reply: string, budget: int): (r: seq<Held>)
    ensures r == [] || Assembled(user, reply, r) <= budget
    ensures Assembled(user, reply, kept) <= budget ==> r == kept
    decreases |kept|
  {
    if kept == [] || Assembled(user, reply, kept) <= budget then kept
    else Shed(DropStalest(kept), user, reply, budget)
  }

  lemma DropStalestMembers(xs: seq<Held>)
    requires xs != []
    ensures forall e | e in DropStalest(xs) :: e in xs && FreshFirst(e, xs[Stalest(xs)])
    ensures forall d | d in xs && d !in DropStalest(xs) :: d == xs[Stalest(xs)]
  {
    var i, less := Stalest(xs), DropStalest(xs);
    hide FreshFirst, Stalest;
    forall d | d in xs ensures d == xs[i] || d in less {
      var j :| 0 <= j < |xs| && xs[j] == d;
      assert j < i ==> less[j] == d;
      assert j > i ==> less[j - 1] == d;
    }
  }

  lemma DropStalestStep(xs: seq<Held>)
    requires Distinct(xs) && xs != []
    ensures Distinct(DropStalest(xs)) && multiset(DropStalest(xs)) <= multiset(xs)
  {
    TakeOut(xs, Stalest(xs));
    SubDistinct(xs, DropStalest(xs));
  }

  /** What is shed is no fresher than anything that stays. */
  lemma {:induction false} ShedStalestFirst(kept: seq<Held>, user: string, reply: string, budget: int)
    requires Distinct(kept)
    ensures var r := Shed(kept, user, reply, budget);
            && multiset(r) <= multiset(kept)
            && (forall e | e in r :: e in kept)
            && (forall d, e | d in kept && d !in r && e in r :: FreshFirst(e, d))
    decreases |kept|
  {
    if kept != [] && Assembled(user, reply, kept) > budget {
      hide FreshFirst, Distinct, DropStalest, Assembled;
      DropStalestStep(kept);
      DropStalestMembers(kept);
      ShedStalestFirst(DropStalest(kept), user, reply, budget);
    }
  }

  function Offered(user: string, reply: string, facts: seq<Held>, budget: int): seq<Held> {
    Injected(facts, Max(0, budget - Assembled(user, reply, [])), false, Unranked)
  }

  /** What remains of the store: all of it when the request fits as passed. */
  function KeptStore(user: string, reply: string, facts: seq<Held>, budget: int): seq<Held> {
    if Assembled(user, reply, facts) <= budget then facts
    else Shed(Offered(user, reply, facts, budget), user, reply, budget)
  }

  lemma CountedTwice(part: seq<Held>, i: nat, j: nat)
    requires i < j < |part| && part[i] == part[j]
    ensures multiset(part)[part[i]] >= 2
  {
    assert part == part[..j] + [part[j]] + part[j + 1..];
    assert part[..j][i] == part[i];
    assert multiset(part[..j])[part[i]] >= 1;
  }

  lemma SubDistinct(xs: seq<Held>, part: seq<Held>)
    requires Distinct(xs) && multiset(part) <= multiset(xs)
    ensures Distinct(part)
  {
    DistinctCounts(xs);
    forall i, j | 0 <= i < j < |part| ensures part[i].id != part[j].id {
      assert part[i] in multiset(part) && part[j] in multiset(part);
      assert part[i] in multiset(xs) && part[j] in multiset(xs);
      if part[i] == part[j] {
        CountedTwice(part, i, j);
        assert false;
      }
    }
  }

  /** The kept store is part of the store, and loses its stalest entries first among those offered. */
  lemma StoreLosesStalest(user: string, reply: string, facts: seq<Held>, budget: int)
    requires Distinct(facts)
    ensures var r := KeptStore(user, reply, facts, budget);
            && multiset(r) <= multiset(facts)
            && (forall d, e | d in Offered(user, reply, facts, budget) && d !in r && e in r ::
                  || Assembled(user, reply, facts) <= budget
                  || e.fact.lastUsed > d.fact.lastUsed
                  || (e.fact.lastUsed == d.fact.lastUsed && e.fact.addedTurn >= d.fact.addedTurn))
  {
    hide Injected, Distinct, Shed, Assembled;
    var offered := Offered(user, reply, facts, budget);
    InjectionSelects(facts, Max(0, budget - Assembled(user, reply, [])), false, Unranked);
    SubDistinct(facts, offered);
    ShedStalestFirst(offered, user, reply, budget);
  }

  function KeptReply(user: string, reply: string, facts: seq<Held>, budget: int): string {
    Cut(reply, Around(user, KeptStore(user, reply, facts, budget)), budget)
  }

  function KeptUser(user: string, reply: string, facts: seq<Held>, budget: int): string {
    Cut(user, Around(KeptReply(user, reply, facts, budget), KeptStore(user, reply, facts, budget)), budget)
  }

  /** What the request costs in the end. */
  function FinalCost(user: string, reply: string, facts: seq<Held>, budget: int): nat {
    Assembled(KeptUser(user, reply, facts, budget), KeptReply(user, reply, facts, budget),
              KeptStore(user, reply, facts, budget))
  }

  method FitExtractionInput(user: string, reply: string, facts: seq<Held>, budget: int)
    returns (keptUser: string, keptReply: string, kept: seq<Held>, stillOver: bool)
    requires Distinct(facts)
    ensures kept == KeptStore(user, reply, facts, budget)
    ensures keptReply == KeptReply(user, reply, facts, budget)
    ensures keptUser == KeptUser(user, reply, facts, budget)
    ensures stillOver == (FinalCost(user, reply, facts, budget) > budget)
  {
    hide Injected, Truncated;
    if Assembled(user, reply, facts) <= budget {
      return user, reply, facts, false;
    }
    kept := SelectForInjection(facts, Max(0, budget - Assembled(user, reply, [])), false, Unranked);
    while kept != [] && Assembled(user, reply, kept) > budget
      invariant Shed(kept, user, reply, budget) == KeptStore(user, reply, facts, budget)
      decreases |kept|
    {
      var i := Stalest(kept);
      kept := kept[..i] + kept[i + 1..];
    }
    keptReply := CutMessage(reply, Around(user, kept), budget);
    keptUser := CutMessage(user, Around(keptReply, kept), budget);
    stillOver := Assembled(keptUser, keptReply, kept) > budget;
  }

  lemma AroundIsSymmetric(user: string, reply: string, facts: seq<Held>)
    ensures Assembled(user, reply, facts) == Payload(user, Around(reply, facts))
  {}

  /** The cheapest form of a request: both messages cut to the note, and no facts. */
  const FLOOR_TOKENS: nat := PROMPT_TOKENS + 41

  lemma FloorIsBareNotes()
    ensures Assembled(BARE_NOTE, BARE_NOTE, []) == FLOOR_TOKENS
  {
    NoteShape();
    hide BARE_NOTE;
  }

  /** A message is touched only when everything cheaper to shed is gone. */
  lemma SheddingOrder(user: string, reply: string, facts: seq<Held>, budget: int)
    ensures KeptReply(user, reply, facts, budget) != reply ==> KeptStore(user, reply, facts, budget) == []
    ensures KeptUser(user, reply, facts, budget) != user ==>
              KeptStore(user, reply, facts, budget) == [] && KeptReply(user, reply, facts, budget) == BARE_NOTE
    ensures KeptReply(user, reply, facts, budget) != reply ==> EndsWithNote(KeptReply(user, reply, facts, budget))
    ensures KeptUser(user, reply, facts, budget) != user ==> EndsWithNote(KeptUser(user, reply, facts, budget))
  {
    var kept, keptReply := KeptStore(user, reply, facts, budget), KeptReply(user, reply, facts, budget);
    hide Cut, Offered, Shed, BARE_NOTE, EndsWithNote;
    AroundIsSymmetric(user, reply, kept);
    AroundIsSymmetric(user, keptReply, kept);
    CutExactly(reply, Around(user, kept), budget);
    CutExactly(user, Around(keptReply, kept), budget);
  }

  /** The one that shedding leaves last: among the freshest entries, the last. */
  function Freshest(xs: seq<Held>): (i: nat)
    requires xs != []
    ensures i < |xs| && forall j | 0 <= j < |xs| :: FreshFirst(xs[i], xs[j])
    ensures forall j | i < j < |xs| :: !FreshFirst(xs[j], xs[i])
  {
    if |xs| == 1 then 0 else
      var i := Freshest(xs[..|xs| - 1]);
      if FreshFirst(xs[|xs| - 1], xs[i]) then |xs| - 1 else i
  }

  predicate IsFreshest(xs: seq<Held>, i: nat) {
    && i < |xs| && (forall j | 0 <= j < |xs| :: FreshFirst(xs[i], xs[j]))
    && forall j | i < j < |xs| :: !FreshFirst(xs[j], xs[i])
  }

  lemma FreshestIsUnique(xs: seq<Held>, i: nat)
    requires IsFreshest(xs, i)
    ensures Freshest(xs) == i
  {
    hide FreshFirst;
    var f := Freshest(xs);
    assert FreshFirst(xs[f], xs[i]) && FreshFirst(xs[i], xs[f]);
  }

  lemma StalestIsAnother(xs: seq<Held>)
    requires |xs| > 1
    ensures Stalest(xs) != Freshest(xs)
  {
    var s, f := Stalest(xs), Freshest(xs);
    hide FreshFirst, Stalest, Freshest;
    assert forall j | 0 <= j < |xs| :: FreshFirst(xs[j], xs[s]) && FreshFirst(xs[f], xs[j]);
    assert s == f ==> f == |xs| - 1;
  }

  lemma DropShifts(xs: seq<Held>, j: nat)
    requires xs != [] && j < |xs| - 1
    ensures DropStalest(xs)[j] == xs[if j < Stalest(xs) then j else j + 1]
  {}

  /** Dropping the stalest of several entries drops another one than the freshest. */
  lemma {:induction false} DropKeepsFreshest(xs: seq<Held>)
    requires |xs| > 1
    ensures DropStalest(xs)[Freshest(DropStalest(xs))] == xs[Freshest(xs)]
  {
    hide FreshFirst, Stalest, Freshest, DropStalest, IsFreshest;
    StalestIsAnother(xs);
    var s, f := Stalest(xs), Freshest(xs);
    var at := if f < s then f else f - 1;
    DropShifts(xs, at);
    FreshestOfShorter(xs, at);
    FreshestIsUnique(DropStalest(xs), at);
  }

  lemma {:induction false} FreshestOfShorter(xs: seq<Held>, at: nat)
    requires |xs| > 1 && Stalest(xs) != Freshest(xs)
    requires at == if Freshest(xs) < Stalest(xs) then Freshest(xs) else Freshest(xs) - 1
    ensures IsFreshest(DropStalest(xs), at)
  {
    hide FreshFirst, Stalest, Freshest, DropStalest;
    var f, less := Freshest(xs), DropStalest(xs);
    DropShifts(xs, at);
    forall j | 0 <= j < |less| ensures FreshFirst(less[at], less[j]) && (j > at ==> !FreshFirst(less[j], less[at])) {
      DropShifts(xs, j);
    }
  }

  /** A row costs the block more than a part of it does. */
  lemma OneRowIsCheapest(kept: seq<Held>, i: nat, user: string, reply: string)
    requires i < |kept|
    ensures Assembled(user, reply, [kept[i]]) <= Assembled(user, reply, kept)
  {
    TakeOut(kept, i);
    SumsConcat([], [kept[i]]);
    assert [] + [kept[i]] == [kept[i]];
    assert Chars([kept[i]]) == |kept[i].fact.text| + 3 by { assert [kept[i]][..0] == []; }
  }

  /** Shedding stops before the list is empty exactly when its freshest entry alone would do. */
  lemma {:induction false} ShedStopsExactly(kept: seq<Held>, user: string, reply: string, budget: int)
    requires kept != []
    ensures Shed(kept, user, reply, budget) != [] <==> Assembled(user, reply, [kept[Freshest(kept)]]) <= budget
    decreases |kept|
  {
    hide Assembled, FreshFirst, DropStalest, Freshest;
    OneRowIsCheapest(kept, Freshest(kept), user, reply);
    if Assembled(user, reply, kept) > budget {
      if |kept| == 1 {
        assert kept == [kept[Freshest(kept)]] && DropStalest(kept) == [];
      } else {
        DropKeepsFreshest(kept);
        ShedStopsExactly(DropStalest(kept), user, reply, budget);
      }
    }
  }

  /** The pinned fact that is shed last. */
  predicate PinSuffices(user: string, reply: string, facts: seq<Held>, budget: int) {
    var pins := ByTurn(Pinned(facts));
    pins != [] && Assembled(user, reply, [pins[Freshest(pins)]]) <= budget
  }

  /** With no room beside the messages, the pins alone are offered. */
  lemma OfferedWithoutRoom(user: string, reply: string, facts: seq<Held>, budget: int)
    requires Assembled(user, reply, []) > budget
    ensures Offered(user, reply, facts, budget) == ByTurn(Pinned(facts))
  {
    hide Settled, Rest, SortBy, Bullets, Chars, Assembled;
  }

  /** Below the bare request some of the store stays only for a pinned fact shorter than "(none)". */
  lemma {:induction false} KeptExactly(user: string, reply: string, facts: seq<Held>, budget: int)
    requires Assembled(user, reply, facts) > budget && Assembled(user, reply, []) > budget
    ensures KeptStore(user, reply, facts, budget) != [] <==> PinSuffices(user, reply, facts, budget)
  {
    hide Assembled, Offered, ByTurn, Pinned, Freshest;
    OfferedWithoutRoom(user, reply, facts, budget);
    var pins := ByTurn(Pinned(facts));
    if pins != [] { ShedStopsExactly(pins, user, reply, budget); }
  }

  /** Such a fact has at most three characters. */
  lemma OnlyShortPinsSuffice(user: string, reply: string, facts: seq<Held>, budget: int)
    requires Assembled(user, reply, []) > budget && PinSuffices(user, reply, facts, budget)
    ensures exists x | x in facts :: x.fact.pin && |x.fact.text| <= 3
  {
    var pins := ByTurn(Pinned(facts));
    var x := pins[Freshest(pins)];
    assert Chars([x]) == |x.fact.text| + 3 by { assert [x][..0] == []; }
    assert |x.fact.text| <= 3;
    OnlyMembers(facts, set y | y in facts && y.fact.pin);
    hide Freshest, SortBy, Only, Chars, Assembled;
    assert x in multiset(pins);
    assert x in multiset(Pinned(facts));
    assert x in Pinned(facts);
  }

  /** The request ends within the budget exactly when one of five forms of it would. */
  lemma FitsExactly(user: string, reply: string, facts: seq<Held>, budget: int)
    ensures FinalCost(user, reply, facts, budget) <= budget <==>
            || Assembled(user, reply, facts) <= budget
            || Assembled(user, reply, []) <= budget
            || Assembled(user, BARE_NOTE, []) <= budget
            || FLOOR_TOKENS <= budget
            || PinSuffices(user, reply, facts, budget)
  {
    FitsOrKeeps(user, reply, facts, budget);
    hide KeptStore, FinalCost, Assembled, BARE_NOTE, PinSuffices;
    if Assembled(user, reply, facts) > budget && Assembled(user, reply, []) > budget {
      KeptExactly(user, reply, facts, budget);
    }
  }

  lemma FitsOrKeeps(user: string, reply: string, facts: seq<Held>, budget: int)
    ensures FinalCost(user, reply, facts, budget) <= budget <==>
            || KeptStore(user, reply, facts, budget) != []
            || Assembled(user, reply, facts) <= budget
            || Assembled(user, reply, []) <= budget
            || Assembled(user, BARE_NOTE, []) <= budget
            || FLOOR_TOKENS <= budget
  {
    var kept, keptReply := KeptStore(user, reply, facts, budget), KeptReply(user, reply, facts, budget);
    FloorIsBareNotes();
    hide Cut, Offered, BARE_NOTE, EndsWithNote;
    CutExactly(reply, Around(user, kept), budget);
    CutExactly(user, Around(keptReply, kept), budget);
    AroundIsSymmetric(user, keptReply, kept);
    AroundIsSymmetric(KeptUser(user, reply, facts, budget), keptReply, kept);
    AroundIsSymmetric(BARE_NOTE, keptReply, kept);
  }

  /** A budget that covers the bare request is always met. */
  lemma EndsWithinBudget(user: string, reply: string, facts: seq<Held>, budget: int)
    requires Assembled(BARE_NOTE, BARE_NOTE, []) <= budget
    ensures FinalCost(user, reply, facts, budget) <= budget
  {
    hide KeptStore, FinalCost, BARE_NOTE;
    FloorIsBareNotes();
    FitsExactly(user, reply, facts, budget);
  }

  /** Below it, cutting can make a request dearer: the note is longer than what it replaces. */
  lemma CuttingCanCost(user: string, reply: string)
    requires 1 <= |user| + |reply| <= 4
    ensures var budget := Assembled("", "", []);
            && Assembled(user, reply, []) == budget + 1
            && FinalCost(user, reply, [], budget) == FLOOR_TOKENS == budget + 26
  {
    var budget := PROMPT_TOKENS + 15;
    assert Assembled("", "", []) == budget && Assembled(user, reply, []) == budget + 1;
    FloorIsBareNotes();
    NoteShape();
    FitsExactly(user, reply, [], budget);
    SheddingOrder(user, reply, [], budget);
    hide BARE_NOTE, Cut, Offered, Shed, KeptStore, KeptReply, EndsWithNote;
    CutExactly(user, Around(KeptReply(user, reply, [], budget), KeptStore(user, reply, [], budget)), budget);
    AroundIsSymmetric(KeptUser(user, reply, [], budget), KeptReply(user, reply, [], budget), KeptStore(user, reply, [], budget));
  }
}
