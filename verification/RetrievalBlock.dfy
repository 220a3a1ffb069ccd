/**
  The retrieval block in compactor/retrieval.py: a token estimate by character class, a bisection
  for the longest affordable prefix, and the block built from whole exchanges against a budget.
  */
module RetrievalBlock {
  import opened FactRows
  import TextClean

  /** How many characters are ASCII, how many are letters or marks, how many bytes the others take. */
  datatype Counts = Counts(ascii: nat, script: nat, decor: nat)

  function Utf8Length(c: char): nat {
    if c < '\U{80}' then 1 else if c < '\U{800}' then 2 else if c < '\U{10000}' then 3 else 4
  }

  function Power2(n: nat): nat { if n == 0 then 1 else 2 * Power2(n - 1) }

  /** The bits that a UTF-8 sequence of so many bytes has for the code point (section 3 of RFC 3629). */
  function PayloadBits(bytes: nat): nat { if bytes == 1 then 7 else 5 * bytes + 1 }

  lemma {:induction false} PowerSum(a: nat, b: nat)
    ensures Power2(a + b) == Power2(a) * Power2(b)
  {
    if b > 0 { PowerSum(a, b - 1); }
  }

  /** A character takes the fewest bytes that have room for its code point. */
  lemma Utf8LengthIsLeast(c: char)
    ensures 1 <= Utf8Length(c) <= 4 && c as int < Power2(PayloadBits(Utf8Length(c)))
    ensures Utf8Length(c) > 1 ==> Power2(PayloadBits(Utf8Length(c) - 1)) <= c as int
  {
    assert Power2(2) == 4 && Power2(3) == 8 && Power2(4) == 16 && Power2(5) == 32;
    PowerSum(3, 4);
    PowerSum(7, 4);
    PowerSum(11, 5);
    PowerSum(16, 5);
  }

  function CountChar(c: char, isScript: char -> bool): Counts {
    if c < '\U{80}' then Counts(1, 0, 0)
    else if isScript(c) then Counts(0, 1, 0)
    else Counts(0, 0, Utf8Length(c))
  }

  function Plus(a: Counts, b: Counts): Counts { Counts(a.ascii + b.ascii, a.script + b.script, a.decor + b.decor) }

  function CountsOf(text: string, isScript: char -> bool): Counts {
    if text == "" then Counts(0, 0, 0)
    else Plus(CountsOf(text[..|text| - 1], isScript), CountChar(text[|text| - 1], isScript))
  }

  function Price(n: Counts): nat {
    if n.script == 0 && n.decor == 0 then n.ascii / 4
    else n.ascii / 4 + n.script * 5 / 4 + n.decor * 21 / 20 + 1
  }

  function Estimate(text: string, isScript: char -> bool): nat { Price(CountsOf(text, isScript)) }

  method EstimateTokens(text: string, isScript: char -> bool) returns (tokens: nat)
    ensures tokens == Estimate(text, isScript)
  {
    var ascii: nat, script: nat, decor: nat := 0, 0, 0;
    for i := 0 to |text|
      invariant Counts(ascii, script, decor) == CountsOf(text[..i], isScript)
    {
      assert text[..i + 1][..i] == text[..i];
      if text[i] < '\U{80}' {
        ascii := ascii + 1;
      } else if isScript(text[i]) {
        script := script + 1;
      } else {
        decor := decor + Utf8Length(text[i]);
      }
    }
    assert text[..|text|] == text;
    tokens := if script == 0 && decor == 0 then ascii / 4 else ascii / 4 + script * 5 / 4 + decor * 21 / 20 + 1;
  }

  // ---------------------------------------------------------------------------------
  // The estimate of joined texts
  // ---------------------------------------------------------------------------------

  lemma {:induction false} CountsConcat(a: string, b: string, isScript: char -> bool)
    ensures CountsOf(a + b, isScript) == Plus(CountsOf(a, isScript), CountsOf(b, isScript))
  {
    hide CountChar;
    if b == "" {
      assert a + b == a;
    } else {
      assert (a + b)[..|a + b| - 1] == a + b[..|b| - 1];
      CountsConcat(a, b[..|b| - 1], isScript);
    }
  }

  lemma QuartersAdd(a: nat, b: nat)
    ensures a / 4 + b / 4 <= (a + b) / 4 <= a / 4 + b / 4 + 1
  {}

  lemma TwentiethsAdd(a: nat, b: nat)
    ensures a / 20 + b / 20 <= (a + b) / 20 <= a / 20 + b / 20 + 1
  {}

  /** Charging two texts apart loses at most two tokens to rounding, and gains at most one. */
  lemma JoinedPrice(m: Counts, n: Counts)
    ensures Price(m) + Price(n) - 1 <= Price(Plus(m, n)) <= Price(m) + Price(n) + 2
  {
    QuartersAdd(m.ascii, n.ascii);
    QuartersAdd(m.script * 5, n.script * 5);
    TwentiethsAdd(m.decor * 21, n.decor * 21);
    assert (m.script + n.script) * 5 == m.script * 5 + n.script * 5;
    assert (m.decor + n.decor) * 21 == m.decor * 21 + n.decor * 21;
  }

  lemma PriceGrows(m: Counts, n: Counts)
    ensures Price(m) <= Price(Plus(m, n))
  {
    QuartersAdd(m.ascii, n.ascii);
    QuartersAdd(m.script * 5, n.script * 5);
    TwentiethsAdd(m.decor * 21, n.decor * 21);
    assert (m.script + n.script) * 5 == m.script * 5 + n.script * 5;
    assert (m.decor + n.decor) * 21 == m.decor * 21 + n.decor * 21;
  }

  /** Every prefix is at most as dear as the text. */
  lemma {:induction false} PrefixIsCheaper(text: string, n: nat, isScript: char -> bool)
    requires n <= |text|
    ensures Estimate(text[..n], isScript) <= Estimate(text, isScript)
  {
    assert text == text[..n] + text[n..];
    CountsConcat(text[..n], text[n..], isScript);
    hide Price, CountsOf;
    PriceGrows(CountsOf(text[..n], isScript), CountsOf(text[n..], isScript));
  }

  // ---------------------------------------------------------------------------------
  // The longest affordable prefix
  // ---------------------------------------------------------------------------------

  ghost predicate LongestWithin(text: string, budget: int, isScript: char -> bool, prefix: string) {
    && prefix <= text
    && Estimate(prefix, isScript) <= budget
    && forall n | |prefix| < n <= |text| :: Estimate(text[..n], isScript) > budget
  }

  lemma {:induction false} LongestIsUnique(text: string, budget: int, isScript: char -> bool, p: string)
    requires LongestWithin(text, budget, isScript, p)
    ensures forall q | LongestWithin(text, budget, isScript, q) :: q == p
  {
    forall q | LongestWithin(text, budget, isScript, q) ensures q == p {
      assert p == text[..|p|] && q == text[..|q|];
    }
  }

  method LongestPrefixWithin(text: string, budget: int, isScript: char -> bool) returns (prefix: string)
    ensures budget <= 0 ==> prefix == ""
    ensures budget > 0 ==> LongestWithin(text, budget, isScript, prefix)
  {
    if budget <= 0 { return ""; }
    var lo, hi := 0, |text|;
    while lo < hi
      invariant 0 <= lo <= hi <= |text|
      invariant Estimate(text[..lo], isScript) <= budget
      invariant forall n | hi < n <= |text| :: Estimate(text[..n], isScript) > budget
    {
      var mid := (lo + hi + 1) / 2;
      var tokens := EstimateTokens(text[..mid], isScript);
      if tokens <= budget {
        lo := mid;
      } else {
        forall n | mid <= n <= |text| ensures Estimate(text[..n], isScript) > budget {
          assert text[..n][..mid] == text[..mid];
          PrefixIsCheaper(text[..n], mid, isScript);
        }
        hi := mid - 1;
      }
    }
    prefix := text[..lo];
  }

  // ---------------------------------------------------------------------------------
  // The block
  // ---------------------------------------------------------------------------------

  datatype Exchange = Exchange(turn: int, document: string)

  /** The fixed texts, the separator line of a turn, the letters, and the budget. */
  datatype Style = Style(header: string, note: string, heading: int -> string, isScript: char -> bool, budget: int)

  predicate Earlier(a: Exchange, b: Exchange) { a.turn <= b.turn }

  function Ordered(results: seq<Exchange>): (r: seq<Exchange>)
    ensures Sorted(r, Earlier) && multiset(r) == multiset(results) && |r| == |results|
    ensures forall i, j | 0 <= i < j < |r| :: r[i].turn <= r[j].turn
  {
    SortBy(results, Earlier)
  }

  function Cost(st: Style, text: string): nat { Estimate(text, st.isScript) }

  /** An exchange as it is priced. */
  function Piece(st: Style, e: Exchange): string { st.heading(e.turn) + "\n" + e.document + "\n" }

  /** The header and whole exchanges, joined by line breaks. */
  function Rendered(st: Style, kept: seq<Exchange>): string {
    if kept == [] then st.header
    else
      var last := kept[|kept| - 1];
      Rendered(st, kept[..|kept| - 1]) + "\n" + st.heading(last.turn) + "\n" + last.document
  }

  /** The exchange's heading and document stand in the text from position `i`. */
  ghost predicate ShownAt(text: string, st: Style, e: Exchange, i: nat) {
    var shown := st.heading(e.turn) + "\n" + e.document;
    i + |shown| <= |text| && text[i..i + |shown|] == shown
  }

  /** The whole text: the header, and every exchange behind the one before it and a line break; nothing else. */
  ghost predicate Shows(text: string, st: Style, kept: seq<Exchange>, at: seq<nat>) {
    && |at| == |kept| && st.header <= text
    && (forall k | 0 <= k < |at| ::
          && ShownAt(text, st, kept[k], at[k])
          && at[k] == 1 + if k == 0 then |st.header| else End(st, kept[k - 1], at[k - 1]))
    && |text| == if kept == [] then |st.header| else End(st, kept[|kept| - 1], at[|kept| - 1])
  }

  function End(st: Style, e: Exchange, i: nat): nat { i + |st.heading(e.turn)| + 1 + |e.document| }

  lemma {:induction false} RenderedShows(st: Style, kept: seq<Exchange>) returns (at: seq<nat>)
    ensures Shows(Rendered(st, kept), st, kept, at)
  {
    if kept == [] {
      at := [];
    } else {
      var init, last := kept[..|kept| - 1], kept[|kept| - 1];
      var before := RenderedShows(st, init);
      var text := Rendered(st, init);
      at := before + [|text| + 1];
      var shown := st.heading(last.turn) + "\n" + last.document;
      assert Rendered(st, kept) == text + "\n" + shown;
      OneMoreShown(text, st, init, before, last);
      assert kept == init + [last];
    }
  }

  lemma OneMoreShown(text: string, st: Style, kept: seq<Exchange>, at: seq<nat>, e: Exchange)
    requires Shows(text, st, kept, at)
    ensures Shows(text + "\n" + (st.heading(e.turn) + "\n" + e.document), st, kept + [e], at + [|text| + 1])
  {
    var shown := st.heading(e.turn) + "\n" + e.document;
    var more, all, places := text + "\n" + shown, kept + [e], at + [|text| + 1];
    assert text <= more && st.header <= more;
    assert all[|kept|] == e && places[|at|] == |text| + 1;
    assert more[|text| + 1..|text| + 1 + |shown|] == shown;
    forall k | 0 <= k < |places|
      ensures ShownAt(more, st, all[k], places[k])
      ensures places[k] == 1 + if k == 0 then |st.header| else End(st, all[k - 1], places[k - 1])
    {
      if k < |at| {
        assert ShownAt(text, st, kept[k], at[k]);
        var one := st.heading(kept[k].turn) + "\n" + kept[k].document;
        assert more[at[k]..at[k] + |one|] == text[at[k]..at[k] + |one|];
        assert all[k] == kept[k] && places[k] == at[k];
        assert k > 0 ==> all[k - 1] == kept[k - 1] && places[k - 1] == at[k - 1];
      }
    }
    assert |more| == End(st, all[|all| - 1], places[|places| - 1]);
    assert Shows(more, st, all, places);
  }

  /** What the loop has charged for them. */
  function Charged(st: Style, kept: seq<Exchange>): nat {
    if kept == [] then Cost(st, st.header)
    else Charged(st, kept[..|kept| - 1]) + Cost(st, Piece(st, kept[|kept| - 1]))
  }

  function Stub(st: Style, e: Exchange, body: string): string {
    st.header + "\n" + st.heading(e.turn) + "\n" + TextClean.TrimRight(body, false) + st.note
  }

  const MIN_TRUNCATED_TOKENS: int := 50

  datatype Block = NoBlock | Whole(kept: nat, text: string) | Truncated(body: string, text: string)

  /** What is left for the opening of an exchange that does not fit whole. */
  function Room(st: Style, e: Exchange): int {
    st.budget - Cost(st, st.header) - Cost(st, st.heading(e.turn) + "\n\n")
  }

  /** The opening that a truncated block shows, if it shows any. */
  ghost predicate Opening(st: Style, e: Exchange, body: string) {
    && Room(st, e) > MIN_TRUNCATED_TOKENS
    && LongestWithin(e.document, Room(st, e), st.isScript, body)
    && TextClean.Trim(body, false) != ""
  }

  method Truncate(st: Style, e: Exchange) returns (block: Block)
    ensures !block.Whole?
    ensures block.NoBlock? ==> forall body :: !Opening(st, e, body)
    ensures block.Truncated? ==> Opening(st, e, block.body) && block.text == Stub(st, e, block.body)
  {
    var used := EstimateTokens(st.header, st.isScript);
    var around := EstimateTokens(st.heading(e.turn) + "\n\n", st.isScript);
    var room := st.budget - used - around;
    if room <= MIN_TRUNCATED_TOKENS { return NoBlock; }
    var body := LongestPrefixWithin(e.document, room, st.isScript);
    LongestIsUnique(e.document, room, st.isScript, body);
    block := if TextClean.Trim(body, false) != "" then Truncated(body, Stub(st, e, body)) else NoBlock;
  }

  /** Whole exchanges as long as they fit; the opening of the first if not even that one does. */
  method FormatRetrievalBlock(st: Style, results: seq<Exchange>) returns (block: Block)
    ensures var ordered := Ordered(results);
            && (block.NoBlock? && ordered != [] ==>
                  Charged(st, ordered[..1]) > st.budget && forall body :: !Opening(st, ordered[0], body))
            && (block.Whole? ==>
                  && 0 < block.kept <= |ordered| && block.text == Rendered(st, ordered[..block.kept])
                  && Charged(st, ordered[..block.kept]) <= st.budget
                  && (block.kept < |ordered| ==> Charged(st, ordered[..block.kept + 1]) > st.budget))
            && (block.Truncated? ==>
                  && ordered != [] && block.text == Stub(st, ordered[0], block.body)
                  && Charged(st, ordered[..1]) > st.budget && Opening(st, ordered[0], block.body))
  {
    hide Opening, Estimate, SortBy, Sorted;
    if results == [] { return NoBlock; }
    var ordered := Ordered(results);
    var text := st.header;
    var used := EstimateTokens(st.header, st.isScript);
    var kept := 0;
    while kept < |ordered|
      invariant 0 <= kept <= |ordered|
      invariant text == Rendered(st, ordered[..kept]) && used == Charged(st, ordered[..kept])
      invariant kept > 0 ==> used <= st.budget
    {
      var e := ordered[kept];
      var cost := EstimateTokens(Piece(st, e), st.isScript);
      assert ordered[..kept + 1][..kept] == ordered[..kept];
      if used + cost > st.budget {
        if kept == 0 {
          block := Truncate(st, e);
          return;
        }
        break;
      }
      text := text + "\n" + st.heading(e.turn) + "\n" + e.document;
      used := used + cost;
      kept := kept + 1;
    }
    block := Whole(kept, text);
  }

  // ---------------------------------------------------------------------------------
  // What the block really costs
  // ---------------------------------------------------------------------------------

  lemma {:induction false} PieceCounts(before: string, heading: string, document: string, isScript: char -> bool)
    ensures CountsOf(before + "\n" + heading + "\n" + document, isScript)
         == Plus(CountsOf(before, isScript), CountsOf(heading + "\n" + document + "\n", isScript))
  {
    hide CountsOf;
    var h, d := heading, document;
    CountsConcat(before + "\n" + h + "\n", d, isScript);
    CountsConcat(before + "\n" + h, "\n", isScript);
    CountsConcat(before + "\n", h, isScript);
    CountsConcat(before, "\n", isScript);
    CountsConcat(h + "\n" + d, "\n", isScript);
    CountsConcat(h + "\n", d, isScript);
    CountsConcat(h, "\n", isScript);
  }

  /** Each whole exchange adds at most its charge and two tokens. */
  lemma {:induction false} WholeBlockCost(st: Style, kept: seq<Exchange>)
    ensures Cost(st, Rendered(st, kept)) <= Charged(st, kept) + 2 * |kept|
  {
    if kept != [] {
      var init, last := kept[..|kept| - 1], kept[|kept| - 1];
      WholeBlockCost(st, init);
      PieceCounts(Rendered(st, init), st.heading(last.turn), last.document, st.isScript);
      hide Price, CountsOf, Plus;
      JoinedPrice(CountsOf(Rendered(st, init), st.isScript), CountsOf(Piece(st, last), st.isScript));
    }
  }

  lemma StubCounts(st: Style, e: Exchange, body: string)
    ensures CountsOf(Stub(st, e, body), st.isScript)
         == Plus(Plus(Plus(CountsOf(st.header, st.isScript), CountsOf(st.heading(e.turn) + "\n\n", st.isScript)),
                      CountsOf(TextClean.TrimRight(body, false), st.isScript)), CountsOf(st.note, st.isScript))
  {
    hide CountsOf;
    var h, cut := st.heading(e.turn), TextClean.TrimRight(body, false);
    CountsConcat(st.header + "\n" + h + "\n" + cut, st.note, st.isScript);
    CountsConcat(st.header + "\n" + h + "\n", cut, st.isScript);
    CountsConcat(st.header + "\n" + h, "\n", st.isScript);
    CountsConcat(st.header + "\n", h, st.isScript);
    CountsConcat(st.header, "\n", st.isScript);
    assert "\n\n" == "\n" + "\n";
    CountsConcat(h, "\n\n", st.isScript);
    CountsConcat("\n", "\n", st.isScript);
  }

  /** A truncated block is over by the note, which is not charged beforehand, and six tokens of rounding. */
  lemma TruncatedBlockCost(st: Style, e: Exchange, body: string)
    requires Cost(st, body) <= Room(st, e)
    ensures Cost(st, Stub(st, e, body)) <= st.budget + Cost(st, st.note) + 6
  {
    hide Price, CountsOf, Plus, Stub;
    var cut := TextClean.TrimRight(body, false);
    TrimmedIsPrefix(body);
    assert body[..|cut|] == cut;
    PrefixIsCheaper(body, |cut|, st.isScript);
    var h, f, b, n := CountsOf(st.header, st.isScript), CountsOf(st.heading(e.turn) + "\n\n", st.isScript),
                      CountsOf(cut, st.isScript), CountsOf(st.note, st.isScript);
    StubCounts(st, e, body);
    JoinedPrice(h, f);
    JoinedPrice(Plus(h, f), b);
    JoinedPrice(Plus(Plus(h, f), b), n);
  }

  lemma {:induction false} TrimmedIsPrefix(s: string)
    ensures TextClean.TrimRight(s, false) <= s
    decreases |s|
  {
    if s != "" { TrimmedIsPrefix(s[..|s| - 1]); }
  }

  /** Any block stays within the budget up to two tokens an exchange, or up to the note and six. */
  lemma BlockBound(st: Style, results: seq<Exchange>, kept: nat)
    requires kept <= |results| && Charged(st, Ordered(results)[..kept]) <= st.budget
    ensures Cost(st, Rendered(st, Ordered(results)[..kept])) <= st.budget + 2 * kept
  {
    WholeBlockCost(st, Ordered(results)[..kept]);
  }
}
