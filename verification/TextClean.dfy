/**
  compactor/textclean.py: measuring rule and box decoration, and taking it off text that is
  bound for memory. Two algorithms that share no code must agree on what decoration is.
  */
module TextClean {

  /** Python's str.isspace, which strip() and split() share. */
  predicate IsSpace(c: char) {
    || '\t' <= c <= '\r' || '\U{1c}' <= c <= ' ' || c == '\U{85}' || c == '\U{a0}' || c == '\U{1680}'
    || '\U{2000}' <= c <= '\U{200a}' || c == '\U{2028}' || c == '\U{2029}' || c == '\U{202f}'
    || c == '\U{205f}' || c == '\U{3000}'
  }

  /** Box drawing, block elements and the typographic rules listed beside them. */
  predicate IsRule(c: char) {
    || '\U{2500}' <= c < '\U{25a0}' || c == '\U{25aa}' || c == '\U{25ab}' || c == '\U{25c6}' || c == '\U{25c7}'
    || c == '\U{25cb}' || c == '\U{25cf}' || c == '\U{25ac}' || c == '\U{203b}' || c == '\U{203e}'
    || c == '\U{23af}' || c == '\U{23e4}' || c == '\U{fe4f}' || c == '\U{ff3f}'
  }

  /** Characters that are a rule only in a run. */
  predicate IsAsciiRule(c: char) {
    c == '-' || c == '=' || c == '_' || c == '*' || c == '~' || c == '#'
  }

  const MIN_ASCII_RUN := 3

  /** The characters listed by name beside the two blocks, some of which are in them. */
  const LISTED_RULES: set<int> := {
    0x2500, 0x2501, 0x2502, 0x2503, 0x2550, 0x2551, 0x25AA, 0x25AB, 0x25C6, 0x25C7,
    0x25CB, 0x25CF, 0x25AC, 0x203B, 0x203E, 0x23AF, 0x23E4, 0xFE4F, 0xFF3F }

  /** The two sets as they are put together: a range with a list, and a list. */
  lemma RuleCharsAre(c: char)
    ensures IsRule(c) <==> 0x2500 <= c as int < 0x25A0 || c as int in LISTED_RULES
    ensures IsAsciiRule(c) <==> c in "-=_*~#"
  {
    assert "-=_*~#" == ['-', '=', '_', '*', '~', '#'];
  }

  /** Spaces, rule characters and run characters are three kinds. */
  lemma KindsAreDisjoint(c: char)
    ensures !(IsSpace(c) && IsRule(c)) && !(IsSpace(c) && IsAsciiRule(c)) && !(IsRule(c) && IsAsciiRule(c))
  {}

  // ---------------------------------------------------------------------------------
  // What decoration is: by maximal runs of one character
  // ---------------------------------------------------------------------------------

  /** Length of the leading run of one character. */
  function Lead(t: string): (n: nat)
    ensures n <= |t| && (t != [] ==> n > 0)
    ensures forall i | 0 <= i < n :: t[i] == t[0]
    ensures n < |t| ==> t[n] != t[0]
  {
    if |t| <= 1 || t[1] != t[0] then (if t == [] then 0 else 1) else 1 + Lead(t[1..])
  }

  predicate Decorates(c: char, run: nat) {
    IsRule(c) || (IsAsciiRule(c) && run >= MIN_ASCII_RUN)
  }

  function RuleCount(t: string): nat {
    if t == [] then 0 else (if Decorates(t[0], Lead(t)) then Lead(t) else 0) + RuleCount(t[Lead(t)..])
  }

  /** The words of a text: everything that is neither space nor decoration, in order. */
  function Content(t: string): string {
    if t == [] then [] else
      (if IsSpace(t[0]) || Decorates(t[0], Lead(t)) then [] else t[..Lead(t)]) + Content(t[Lead(t)..])
  }

  predicate Edge(c: char, rules: bool) { IsSpace(c) || (rules && IsRule(c)) }

  /** The characters that are not space, nor, if `rules`, a rule character. */
  function Keep(s: string, rules: bool): string {
    if s == [] then [] else (if Edge(s[0], rules) then [] else [s[0]]) + Keep(s[1..], rules)
  }

  function NonSpace(s: string): string { Keep(s, false) }

  // ---------------------------------------------------------------------------------
  // Measuring
  // ---------------------------------------------------------------------------------

  function CountRules(t: string): nat {
    if t == [] then 0 else (if IsRule(t[0]) then 1 else 0) + CountRules(t[1..])
  }

  function CountRuns(t: string): nat {
    if t == [] then 0 else
      (if IsAsciiRule(t[0]) && Lead(t) >= MIN_ASCII_RUN then Lead(t) else 0) + CountRuns(t[Lead(t)..])
  }

  lemma {:induction false} CountRulesOfRun(t: string, n: nat)
    requires n <= |t| && forall i | 0 <= i < n :: t[i] == t[0]
    ensures CountRules(t) == (if t != [] && IsRule(t[0]) then n else 0) + CountRules(t[n..])
  {
    hide IsSpace, IsRule, IsAsciiRule;
    if n > 0 {
      assert t[1..][n - 1..] == t[n..];
      CountRulesOfRun(t[1..], n - 1);
    }
  }

  lemma {:induction false} TwoCountsMakeOne(t: string)
    ensures RuleCount(t) == CountRules(t) + CountRuns(t)
  {
    if t != [] { KindsAreDisjoint(t[0]); }
    hide IsSpace, IsRule, IsAsciiRule;
    if t != [] {
      CountRulesOfRun(t, Lead(t));
      TwoCountsMakeOne(t[Lead(t)..]);
    }
  }

  /** A character that makes no run can be skipped. */
  lemma SkipOne(t: string)
    requires t != [] && !IsAsciiRule(t[0])
    ensures CountRuns(t) == CountRuns(t[1..])
  {
    if Lead(t) > 1 {
      assert t[1..][Lead(t[1..])..] == t[Lead(t)..];
    }
  }

  lemma {:induction false} PadWith(t: string, c: char)
    requires !IsAsciiRule(c)
    ensures CountRuns(t + [c]) == CountRuns(t) && CountRuns([]) == 0
  {
    hide IsSpace, IsRule, IsAsciiRule;
    if t == [] {
      assert (t + [c])[1..] == [];
    } else if IsAsciiRule(t[0]) {
      LeadAppend(t, [c]);
      assert (t + [c])[Lead(t)..] == t[Lead(t)..] + [c];
      PadWith(t[Lead(t)..], c);
    } else {
      SkipOne(t);
      SkipOne(t + [c]);
      assert (t + [c])[1..] == t[1..] + [c];
      PadWith(t[1..], c);
    }
  }

  lemma {:induction false} LeadAppend(a: string, b: string)
    requires a != [] && (Lead(a) == |a| && b != [] ==> b[0] != a[0])
    ensures Lead(a + b) == Lead(a)
  {
    assert forall i | 0 <= i < |a| :: (a + b)[i] == a[i];
    assert b != [] ==> (a + b)[|a|] == b[0];
  }

  /** `t[start..k]` is the run that the scan is in: one ASCII rule character, repeated. */
  ghost predicate InRun(t: string, start: nat, k: nat) {
    start <= k <= |t| && forall i | start <= i < k :: t[i] == t[start] && IsAsciiRule(t[i])
  }

  lemma CountRunsOfRun(s: string, n: nat)
    requires 0 < n < |s| && IsAsciiRule(s[0]) && s[n] != s[0] && forall i | 0 <= i < n :: s[i] == s[0]
    ensures CountRuns(s) == (if n >= MIN_ASCII_RUN then n else 0) + CountRuns(s[n..])
  {
    assert Lead(s) == n;
  }

  /** The character at `k` ends the run, which contributes its length if it is long enough. */
  lemma RunEnds(t: string, start: nat, k: nat)
    requires InRun(t, start, k) && k < |t|
    requires IsAsciiRule(t[k]) && start < k ==> t[k] != t[start]
    ensures CountRuns(t[start..]) == (if k - start >= MIN_ASCII_RUN then k - start else 0)
                                     + CountRuns(t[(if IsAsciiRule(t[k]) then k else k + 1)..])
  {
    hide IsSpace, IsRule, IsAsciiRule, CountRuns, Lead;
    var s := t[start..];
    if start < k {
      assert forall i | 0 <= i < k - start :: s[i] == t[start + i] == t[start];
      assert k - start < |s| && s[k - start] == t[k];
      assert IsAsciiRule(s[0]) && s[k - start] != s[0];
      CountRunsOfRun(s, k - start);
      assert s[k - start..] == t[k..];
    }
    if !IsAsciiRule(t[k]) {
      SkipOne(t[k..]);
      assert t[k..][1..] == t[k + 1..];
    }
  }

  method CountRuleChars(text: string) returns (n: nat)
    ensures n == CountRules(text)
  {
    n := 0;
    for k := 0 to |text|
      invariant n + CountRules(text[k..]) == CountRules(text)
    {
      n := if IsRule(text[k]) then n + 1 else n;
    }
  }

  /** rule_char_count: the rule characters, then the ASCII runs in one scan with a sentinel. */
  method RuleCharCount(text: string) returns (n: nat)
    ensures n == RuleCount(text)
  {
    hide CountRuns, Lead, CountRules, RuleCount;
    n := CountRuleChars(text);
    var padded := text + ['\0'];
    var runLen := 0;
    ghost var total := n + CountRuns(padded);
    for k := 0 to |padded|
      invariant runLen <= k && InRun(padded, k - runLen, k)
      invariant k == |padded| ==> runLen == 0
      invariant n + CountRuns(padded[k - runLen..]) == total
    {
      if IsAsciiRule(padded[k]) && runLen > 0 && padded[k] == padded[k - 1] {
        runLen := runLen + 1;
      } else {
        RunEnds(padded, k - runLen, k);
        n := if runLen >= MIN_ASCII_RUN then n + runLen else n;
        runLen := if IsAsciiRule(padded[k]) then 1 else 0;
      }
    }
    assert padded[|padded|..] == [];
    PadWith(text, '\0');
    TwoCountsMakeOne(text);
  }

  // ---------------------------------------------------------------------------------
  // Stripping
  // ---------------------------------------------------------------------------------

  /** The substitution of every ASCII run by one space. */
  function SubRuns(s: string): string {
    if s == [] then [] else
      (if IsAsciiRule(s[0]) && Lead(s) >= MIN_ASCII_RUN then " " else s[..Lead(s)]) + SubRuns(s[Lead(s)..])
  }

  function TrimLeft(s: string, rules: bool): (r: string)
    ensures r != [] ==> !Edge(r[0], rules)
  {
    if s == [] || !Edge(s[0], rules) then s else TrimLeft(s[1..], rules)
  }

  function TrimRight(s: string, rules: bool): (r: string)
    ensures r <= s && (r != [] ==> !Edge(r[|r| - 1], rules))
  {
    if s == [] || !Edge(s[|s| - 1], rules) then s else TrimRight(s[..|s| - 1], rules)
  }

  /** str.strip when `rules` is false; the two edge-trimming loops when it is true. */
  function Trim(s: string, rules: bool): string { TrimRight(TrimLeft(s, rules), rules) }

  function BlankRules(s: string): string {
    seq(|s|, i requires 0 <= i < |s| => if IsRule(s[i]) then ' ' else s[i])
  }

  /** Length of the leading word. */
  function WordLen(s: string): (n: nat)
    ensures n <= |s| && (forall i | 0 <= i < n :: !IsSpace(s[i])) && (n < |s| ==> IsSpace(s[n]))
  {
    if s == [] || IsSpace(s[0]) then 0 else 1 + WordLen(s[1..])
  }

  /** str.split() */
  function Words(s: string): (ws: seq<string>)
    ensures forall w | w in ws :: IsWord(w)
    decreases |s|
  {
    if s == [] then [] else if IsSpace(s[0]) then Words(s[1..]) else [s[..WordLen(s)]] + Words(s[WordLen(s)..])
  }

  predicate IsWord(w: string) { w != [] && forall i | 0 <= i < |w| :: !IsSpace(w[i]) }

  function Join(parts: seq<string>, sep: char): string {
    if parts == [] then [] else if |parts| == 1 then parts[0] else parts[0] + [sep] + Join(parts[1..], sep)
  }

  /** One line: Some("") for a line of nothing but spaces and ASCII runs, None for a line
      that was only decoration otherwise, else its words. */
  function CleanLine(line: string): (kept: seq<string>)
    ensures |kept| <= 1
  {
    var stripped := Trim(SubRuns(line), false);
    if stripped == [] then [""] else
      var words := Join(Words(BlankRules(Trim(stripped, true))), ' ');
      if words == [] then [] else [words]
  }

  /** str.split("\n") */
  function Lines(t: string): (ls: seq<string>)
    ensures ls != []
  {
    if t == [] then [""] else
      var rest := Lines(t[1..]);
      if t[0] == '\n' then [""] + rest else [[t[0]] + rest[0]] + rest[1..]
  }

  function CleanLines(lines: seq<string>): seq<string> {
    if lines == [] then [] else CleanLines(lines[..|lines| - 1]) + CleanLine(lines[|lines| - 1])
  }

  /** Runs of blank lines collapse to one. */
  function Collapse(lines: seq<string>): seq<string> {
    if lines == [] then [] else
      var init, last := Collapse(lines[..|lines| - 1]), lines[|lines| - 1];
      if last == "" && init != [] && init[|init| - 1] == "" then init else init + [last]
  }

  function Strip(t: string): string {
    if t == "" then t else Trim(Join(Collapse(CleanLines(Lines(t))), '\n'), false)
  }

  method StripLine(line: string) returns (kept: seq<string>)
    ensures kept == CleanLine(line)
  {
    hide SubRuns, BlankRules, Words, Join;
    var stripped := Trim(SubRuns(line), false);
    if stripped == [] {
      return [""];
    }
    var rest := stripped;
    while rest != [] && Edge(rest[0], true)
      invariant TrimLeft(rest, true) == TrimLeft(stripped, true)
    {
      rest := rest[1..];
    }
    while rest != [] && Edge(rest[|rest| - 1], true)
      invariant TrimRight(rest, true) == Trim(stripped, true)
    {
      rest := rest[..|rest| - 1];
    }
    rest := Join(Words(BlankRules(rest)), ' ');
    kept := if rest == [] then [] else [rest];
  }

  method CollapseBlankLines(lines: seq<string>) returns (cleaned: seq<string>)
    ensures cleaned == Collapse(lines)
  {
    cleaned := [];
    for k := 0 to |lines|
      invariant cleaned == Collapse(lines[..k])
    {
      assert lines[..k + 1][..k] == lines[..k];
      if lines[k] == "" && cleaned != [] && cleaned[|cleaned| - 1] == "" {
        continue;
      }
      cleaned := cleaned + [lines[k]];
    }
    assert lines[..|lines|] == lines;
  }

  /** strip_rule_decoration */
  method StripRuleDecoration(text: string) returns (r: string)
    ensures r == Strip(text)
  {
    if text == "" {
      return text;
    }
    hide Lines, CleanLine, Collapse, Join, Trim;
    var lines := Lines(text);
    var out: seq<string> := [];
    for k := 0 to |lines|
      invariant out == CleanLines(lines[..k])
    {
      assert lines[..k + 1][..k] == lines[..k];
      var kept := StripLine(lines[k]);
      out := out + kept;
    }
    assert lines[..|lines|] == lines;
    var cleaned := CollapseBlankLines(out);
    r := Trim(Join(cleaned, '\n'), false);
  }

  // ---------------------------------------------------------------------------------
  // Nothing but decoration and spacing is taken off
  // ---------------------------------------------------------------------------------

  lemma KeepIs(s: string, rules: bool)
    ensures Keep([], rules) == []
    ensures s != [] ==> Keep(s, rules) == (if Edge(s[0], rules) then [] else [s[0]]) + Keep(s[1..], rules)
  {}

  lemma Associates(x: string, y: string, z: string)
    ensures x + (y + z) == (x + y) + z
  {}

  lemma {:induction false} KeepConcat(a: string, b: string, rules: bool)
    ensures Keep(a + b, rules) == Keep(a, rules) + Keep(b, rules)
  {
    hide Keep, Edge;
    KeepIs(a, rules);
    KeepIs(a + b, rules);
    if a == [] {
      assert a + b == b;
    } else {
      assert (a + b)[1..] == a[1..] + b;
      KeepConcat(a[1..], b, rules);
      Associates(if Edge(a[0], rules) then [] else [a[0]], Keep(a[1..], rules), Keep(b, rules));
    }
  }

  lemma {:induction false} TrimLeftKeeps(s: string, edge: bool, rules: bool)
    requires edge ==> rules
    ensures Keep(TrimLeft(s, edge), rules) == Keep(s, rules)
  {
    if s != [] && Edge(s[0], edge) {
      TrimLeftKeeps(s[1..], edge, rules);
    }
  }

  lemma {:induction false} TrimRightKeeps(s: string, edge: bool, rules: bool)
    requires edge ==> rules
    ensures Keep(TrimRight(s, edge), rules) == Keep(s, rules)
  {
    if s != [] && Edge(s[|s| - 1], edge) {
      assert s[..|s| - 1] + [s[|s| - 1]] == s;
      KeepConcat(s[..|s| - 1], [s[|s| - 1]], rules);
      TrimRightKeeps(s[..|s| - 1], edge, rules);
    }
  }

  lemma TrimKeeps(s: string, edge: bool, rules: bool)
    requires edge ==> rules
    ensures Keep(Trim(s, edge), rules) == Keep(s, rules)
  {
    TrimLeftKeeps(s, edge, rules);
    TrimRightKeeps(TrimLeft(s, edge), edge, rules);
  }

  lemma {:induction false} BlankRulesKeeps(s: string)
    ensures Keep(BlankRules(s), false) == Keep(s, true)
  {
    if s != [] {
      assert BlankRules(s)[1..] == BlankRules(s[1..]);
      BlankRulesKeeps(s[1..]);
    }
  }

  function KeepAll(parts: seq<string>): string {
    if parts == [] then [] else NonSpace(parts[0]) + KeepAll(parts[1..])
  }

  lemma {:induction false} JoinKeeps(parts: seq<string>, sep: char)
    requires IsSpace(sep)
    ensures NonSpace(Join(parts, sep)) == KeepAll(parts)
  {
    if |parts| > 1 {
      KeepConcat(parts[0] + [sep], Join(parts[1..], sep), false);
      KeepConcat(parts[0], [sep], false);
      assert Keep([sep], false) == [];
      JoinKeeps(parts[1..], sep);
    }
  }

  lemma {:induction false} WordsKeep(s: string)
    ensures KeepAll(Words(s)) == NonSpace(s)
    decreases |s|
  {
    if s == [] {
    } else if IsSpace(s[0]) {
      WordsKeep(s[1..]);
    } else {
      var n := WordLen(s);
      assert s[..n] + s[n..] == s;
      KeepConcat(s[..n], s[n..], false);
      WordsKeep(s[n..]);
      assert Words(s)[1..] == Words(s[n..]);
    }
  }

  /** What is kept of a run is the whole run or nothing. */
  lemma {:induction false} KeepRun(s: string, rules: bool)
    requires s != [] && forall i | 0 <= i < |s| :: s[i] == s[0]
    ensures Keep(s, rules) == if Edge(s[0], rules) then [] else s
  {
    hide IsSpace, IsRule, IsAsciiRule;
    if |s| > 1 {
      KeepRun(s[1..], rules);
    }
  }

  lemma {:induction false} SubRunsKeeps(s: string)
    ensures Keep(SubRuns(s), true) == Content(s)
  {
    if s != [] {
      var n := Lead(s);
      KeepRun(s[..n], true);
      SubRunsKeeps(s[n..]);
      KeepConcat(s[..n], SubRuns(s[n..]), true);
      KeepConcat(" ", SubRuns(s[n..]), true);
      assert Keep(" ", true) == [];
    }
  }

  lemma {:induction false} CleanLineKeeps(line: string)
    ensures KeepAll(CleanLine(line)) == Content(line)
  {
    var subbed := SubRuns(line);
    var stripped := Trim(subbed, false);
    SubRunsKeeps(line);
    TrimKeeps(subbed, false, true);
    if stripped != [] {
      var kept := Trim(stripped, true);
      TrimKeeps(stripped, true, true);
      BlankRulesKeeps(kept);
      WordsKeep(BlankRules(kept));
      JoinKeeps(Words(BlankRules(kept)), ' ');
    }
  }

  lemma SkipSpace(t: string)
    requires t != [] && IsSpace(t[0])
    ensures Content(t) == Content(t[1..])
  {
    if Lead(t) > 1 {
      assert t[1..][Lead(t[1..])..] == t[Lead(t)..];
    }
  }

  /** The first run of `a` contributes the same whatever other character follows. */
  lemma ContentHead(a: string, b: string)
    requires a != [] && (b != [] ==> b[0] != a[0])
    ensures Content(a + b) == (if IsSpace(a[0]) || Decorates(a[0], Lead(a)) then [] else a[..Lead(a)]) + Content(a[Lead(a)..] + b)
  {
    hide IsSpace, Decorates;
    LeadAppend(a, b);
    assert (a + b)[..Lead(a)] == a[..Lead(a)] && (a + b)[Lead(a)..] == a[Lead(a)..] + b;
  }

  lemma NoContentInNothing()
    ensures Content([]) == []
  {}

  lemma {:induction false} BreakAfterRun(a: string, rest: string, c: string)
    requires a != [] && (rest != [] ==> rest[0] != a[0])
    requires Content(a[Lead(a)..] + rest) == Content(a[Lead(a)..]) + c
    ensures Content(a + rest) == Content(a) + c
  {
    hide IsSpace, Content, Lead, Decorates;
    var left := a[Lead(a)..];
    ContentHead(a, rest);
    ContentHead(a, []);
    assert a + [] == a && left + [] == left;
    Associates(if IsSpace(a[0]) || Decorates(a[0], Lead(a)) then [] else a[..Lead(a)], Content(left), c);
  }

  lemma BreakAfterSpace(a: string, rest: string, c: string)
    requires a != [] && IsSpace(a[0]) && Content(a[1..] + rest) == Content(a[1..]) + c
    ensures Content(a + rest) == Content(a) + c
  {
    hide IsSpace, Content, Lead, Decorates;
    SkipSpace(a);
    SkipSpace(a + rest);
    assert (a + rest)[1..] == a[1..] + rest;
  }

  /** A line break ends every run. */
  lemma {:induction false} ContentBreaks(a: string, b: string)
    ensures Content(a + (['\n'] + b)) == Content(a) + Content(b)
  {
    assert IsSpace('\n');
    hide IsSpace, Content, Lead;
    if a == [] {
      NoContentInNothing();
      SkipSpace(['\n'] + b);
      assert a + (['\n'] + b) == ['\n'] + b && (['\n'] + b)[1..] == b;
    } else if a[0] == '\n' {
      ContentBreaks(a[1..], b);
      BreakAfterSpace(a, ['\n'] + b, Content(b));
    } else {
      ContentBreaks(a[Lead(a)..], b);
      BreakAfterRun(a, ['\n'] + b, Content(b));
    }
  }

  function ContentAll(lines: seq<string>): string {
    if lines == [] then [] else Content(lines[0]) + ContentAll(lines[1..])
  }

  lemma {:induction false} LinesJoin(t: string)
    ensures Join(Lines(t), '\n') == t
    ensures forall l | l in Lines(t) :: '\n' !in l
  {
    hide Join;
    JoinIs([""], '\n');
    if t != [] {
      LinesJoin(t[1..]);
      var rest := Lines(t[1..]);
      if t[0] == '\n' {
        JoinIs([""] + rest, '\n');
      } else {
        JoinPush(t[0], rest, '\n');
      }
    }
  }

  lemma JoinPush(c: char, parts: seq<string>, sep: char)
    requires parts != []
    ensures Join([[c] + parts[0]] + parts[1..], sep) == [c] + Join(parts, sep)
  {
    JoinIs(parts, sep);
    JoinIs([[c] + parts[0]] + parts[1..], sep);
  }

  lemma JoinIs(parts: seq<string>, sep: char)
    ensures |parts| > 1 ==> Join(parts, sep) == parts[0] + ([sep] + Join(parts[1..], sep))
    ensures |parts| == 1 ==> Join(parts, sep) == parts[0]
    ensures parts == [] ==> Join(parts, sep) == []
  {
    if |parts| > 1 {
      assert parts[0] + [sep] + Join(parts[1..], sep) == parts[0] + ([sep] + Join(parts[1..], sep));
    }
  }

  lemma {:induction false} ContentOfLines(lines: seq<string>)
    ensures Content(Join(lines, '\n')) == ContentAll(lines)
  {
    assert Content([]) == [];
    JoinIs(lines, '\n');
    hide Content, Join;
    if |lines| > 1 {
      ContentBreaks(lines[0], Join(lines[1..], '\n'));
      ContentOfLines(lines[1..]);
    }
  }

  lemma {:induction false} KeepAllConcat(a: seq<string>, b: seq<string>)
    ensures KeepAll(a + b) == KeepAll(a) + KeepAll(b)
  {
    if a == [] {
      assert a + b == b;
    } else {
      assert (a + b)[1..] == a[1..] + b;
      KeepAllConcat(a[1..], b);
    }
  }

  lemma {:induction false} ContentAllSnoc(lines: seq<string>, l: string)
    ensures ContentAll(lines + [l]) == ContentAll(lines) + Content(l)
  {
    if lines != [] {
      assert (lines + [l])[1..] == lines[1..] + [l];
      ContentAllSnoc(lines[1..], l);
    }
  }

  lemma {:induction false} CleanLinesKeep(lines: seq<string>)
    ensures KeepAll(CleanLines(lines)) == ContentAll(lines)
  {
    hide IsSpace, IsRule, IsAsciiRule, CleanLine, Content, Lead;
    if lines != [] {
      var init, last := lines[..|lines| - 1], lines[|lines| - 1];
      assert init + [last] == lines;
      CleanLinesKeep(init);
      CleanLineKeeps(last);
      KeepAllConcat(CleanLines(init), CleanLine(last));
      ContentAllSnoc(init, last);
    }
  }

  lemma {:induction false} CollapseKeeps(lines: seq<string>)
    ensures KeepAll(Collapse(lines)) == KeepAll(lines)
  {
    if lines != [] {
      var init, last := lines[..|lines| - 1], lines[|lines| - 1];
      assert init + [last] == lines;
      CollapseKeeps(init);
      KeepAllConcat(Collapse(init), [last]);
      KeepAllConcat(init, [last]);
    }
  }

  /** Stripping keeps every word, whole and in order, and drops every decoration. */
  lemma {:induction false} StripKeepsContent(t: string)
    ensures NonSpace(Strip(t)) == Content(t)
  {
    if t != "" {
      var c := Collapse(CleanLines(Lines(t)));
      TrimKeeps(Join(c, '\n'), false, false);
      JoinKeeps(c, '\n');
      CollapseKeeps(CleanLines(Lines(t)));
      CleanLinesKeep(Lines(t));
      ContentOfLines(Lines(t));
      LinesJoin(t);
    }
  }

  lemma {:induction false} ContentAndRules(t: string)
    ensures |NonSpace(t)| == |Content(t)| + RuleCount(t)
  {
    if t != [] { KindsAreDisjoint(t[0]); }
    hide IsSpace, IsRule, IsAsciiRule;
    if t != [] {
      var n := Lead(t);
      assert t[..n] + t[n..] == t;
      KeepConcat(t[..n], t[n..], false);
      KeepRun(t[..n], false);
      ContentAndRules(t[n..]);
    }
  }

  /** What stripping takes off is exactly what measuring counts. */
  lemma {:induction false} StripTakesWhatIsCounted(t: string)
    ensures |NonSpace(t)| == |NonSpace(Strip(t))| + RuleCount(t)
  {
    StripKeepsContent(t);
    ContentAndRules(t);
  }

  // ---------------------------------------------------------------------------------
  // Nothing is left to take off
  // ---------------------------------------------------------------------------------

  predicate NoTriple(s: string) {
    forall i {:trigger s[i]} | 0 <= i < |s| - 2 && IsAsciiRule(s[i]) :: !(s[i] == s[i + 1] && s[i] == s[i + 2])
  }

  /** No decoration of either kind. */
  predicate Plain(s: string) {
    NoTriple(s) && forall i | 0 <= i < |s| :: !IsRule(s[i])
  }

  lemma LeadOfPlain(s: string)
    requires s != [] && NoTriple(s)
    ensures IsAsciiRule(s[0]) ==> Lead(s) < MIN_ASCII_RUN
    ensures NoTriple(s[Lead(s)..])
  {
    hide IsSpace, IsRule, IsAsciiRule;
    var n := Lead(s);
    forall i | 0 <= i < |s[n..]| - 2 && IsAsciiRule(s[n..][i])
      ensures !(s[n..][i] == s[n..][i + 1] && s[n..][i] == s[n..][i + 2])
    {
      assert s[n..][i] == s[n + i] && s[n..][i + 1] == s[n + i + 1] && s[n..][i + 2] == s[n + i + 2];
    }
  }

  lemma {:induction false} PlainHasNone(s: string)
    requires Plain(s)
    ensures RuleCount(s) == 0
  {
    hide IsSpace, IsRule, IsAsciiRule;
    if s != [] {
      LeadOfPlain(s);
      PlainHasNone(s[Lead(s)..]);
    }
  }

  lemma {:induction false} SubRunsLeaves(s: string)
    requires NoTriple(s)
    ensures SubRuns(s) == s
  {
    hide IsSpace, IsRule, IsAsciiRule;
    if s != [] {
      LeadOfPlain(s);
      SubRunsLeaves(s[Lead(s)..]);
    }
  }

  /** Two texts without a run make one without a run, if the second does not continue a run. */
  lemma NoTripleConcat(a: string, b: string)
    requires NoTriple(a) && NoTriple(b)
    requires a == [] || b == [] || a[|a| - 1] != b[0] || !IsAsciiRule(b[0])
    ensures NoTriple(a + b)
  {
    var t := a + b;
    forall i | 0 <= i < |t| - 2 && IsAsciiRule(t[i]) ensures !(t[i] == t[i + 1] && t[i] == t[i + 2]) {
      if i + 2 < |a| {
        assert t[i] == a[i] && t[i + 1] == a[i + 1] && t[i + 2] == a[i + 2];
      } else if i >= |a| {
        assert t[i] == b[i - |a|] && t[i + 1] == b[i + 1 - |a|] && t[i + 2] == b[i + 2 - |a|];
      } else {
        assert t[|a| - 1] == a[|a| - 1] && t[|a|] == b[0];
      }
    }
  }

  lemma NoTripleSlice(s: string, lo: nat, hi: nat)
    requires lo <= hi <= |s|
    ensures NoTriple(s) ==> NoTriple(s[lo..hi])
    ensures Plain(s) ==> Plain(s[lo..hi])
  {
    hide IsSpace, IsRule, IsAsciiRule;
    var t := s[lo..hi];
    assert forall i | 0 <= i < |t| :: t[i] == s[lo + i];
    if NoTriple(s) {
      forall i | 0 <= i < |t| - 2 && IsAsciiRule(t[i]) ensures !(t[i] == t[i + 1] && t[i] == t[i + 2]) {
        assert t[i] == s[lo + i] && t[i + 1] == s[lo + i + 1] && t[i + 2] == s[lo + i + 2];
      }
    }
  }

  lemma SubRunsIs(s: string)
    ensures SubRuns([]) == []
    ensures s != [] ==>
              SubRuns(s) == (if IsAsciiRule(s[0]) && Lead(s) >= MIN_ASCII_RUN then " " else s[..Lead(s)]) + SubRuns(s[Lead(s)..])
  {}

  lemma {:induction false} SubRunsClears(s: string)
    ensures NoTriple(SubRuns(s))
    ensures s != [] && SubRuns(s) != [] ==> SubRuns(s)[0] == s[0] || SubRuns(s)[0] == ' '
  {
    assert !IsAsciiRule(' ');
    hide IsSpace, IsRule, IsAsciiRule, SubRuns;
    SubRunsIs(s);
    if s != [] {
      var n := Lead(s);
      var rest := SubRuns(s[n..]);
      SubRunsClears(s[n..]);
      if IsAsciiRule(s[0]) && n >= MIN_ASCII_RUN {
        NoTripleConcat(" ", rest);
      } else {
        assert NoTriple(s[..n]) by {
          assert forall i | 0 <= i < n :: s[..n][i] == s[0];
        }
        assert s[..n][n - 1] == s[0];
        NoTripleConcat(s[..n], rest);
      }
    }
  }

  lemma {:induction false} TrimLeftIsSlice(s: string, edge: bool)
    ensures exists lo :: 0 <= lo <= |s| && TrimLeft(s, edge) == s[lo..]
  {
    if s == [] || !Edge(s[0], edge) {
      assert s[0..] == s;
    } else {
      TrimLeftIsSlice(s[1..], edge);
      var lo :| 0 <= lo <= |s[1..]| && TrimLeft(s[1..], edge) == s[1..][lo..];
      assert s[1..][lo..] == s[lo + 1..];
    }
  }

  lemma TrimClears(s: string, edge: bool)
    requires NoTriple(s)
    ensures NoTriple(Trim(s, edge))
  {
    TrimLeftIsSlice(s, edge);
    var lo :| 0 <= lo <= |s| && TrimLeft(s, edge) == s[lo..];
    NoTripleSlice(s, lo, |s|);
    assert s[lo..|s|] == s[lo..];
    var t := TrimLeft(s, edge);
    NoTripleSlice(t, 0, |TrimRight(t, edge)|);
  }

  lemma BlankRulesClears(s: string)
    requires NoTriple(s)
    ensures Plain(BlankRules(s))
  {
    var t := BlankRules(s);
    forall i | 0 <= i < |t| - 2 && IsAsciiRule(t[i]) ensures !(t[i] == t[i + 1] && t[i] == t[i + 2]) {
      assert t[i] == s[i];
    }
  }

  lemma {:induction false} WordsArePlain(s: string)
    requires Plain(s)
    ensures forall w | w in Words(s) :: Plain(w)
    decreases |s|
  {
    if s == [] {
    } else if IsSpace(s[0]) {
      NoTripleSlice(s, 1, |s|);
      WordsArePlain(s[1..]);
    } else {
      NoTripleSlice(s, 0, WordLen(s));
      NoTripleSlice(s, WordLen(s), |s|);
      assert s[WordLen(s)..|s|] == s[WordLen(s)..];
      WordsArePlain(s[WordLen(s)..]);
    }
  }

  lemma PlainConcat(a: string, sep: char, b: string)
    requires Plain(a) && Plain(b) && IsSpace(sep)
    ensures Plain(a + [sep] + b)
  {
    NoTripleConcat([sep], b);
    NoTripleConcat(a, [sep] + b);
    assert a + [sep] + b == a + ([sep] + b);
  }

  lemma {:induction false} JoinIsPlain(parts: seq<string>, sep: char)
    requires IsSpace(sep) && forall p | p in parts :: Plain(p)
    ensures Plain(Join(parts, sep))
  {
    if parts == [] {
      assert Plain([]);
    } else {
      assert parts[0] in parts;
      hide Plain;
      if |parts| > 1 {
        JoinIsPlain(parts[1..], sep);
        PlainConcat(parts[0], sep, Join(parts[1..], sep));
      }
    }
  }

  /** A line as stripping leaves it: words with single spaces between them, undecorated. */
  predicate Tidy(l: string) {
    l != "" && Plain(l) && Join(Words(l), ' ') == l
  }

  lemma {:induction false} WordsOfJoin(ws: seq<string>)
    requires forall w | w in ws :: IsWord(w)
    ensures Words(Join(ws, ' ')) == ws
  {
    assert IsSpace(' ');
    hide IsSpace, IsRule, IsAsciiRule;
    if ws != [] {
      var t := Join(ws, ' ');
      assert IsWord(ws[0]);
      WordsOfJoin(ws[1..]);
      assert WordLen(t) == |ws[0]| by {
        assert forall i | 0 <= i < |ws[0]| :: t[i] == ws[0][i];
        assert |ws| > 1 ==> t[|ws[0]|] == ' ';
      }
      assert t[..|ws[0]|] == ws[0];
      if |ws| > 1 {
        assert t[|ws[0]|..] == [' '] + Join(ws[1..], ' ');
        assert t[|ws[0]|..][1..] == Join(ws[1..], ' ');
      } else {
        assert t[|ws[0]|..] == [];
      }
    }
  }

  lemma CleanLineIsTidy(line: string)
    ensures forall l | l in CleanLine(line) :: l == "" || Tidy(l)
  {
    var stripped := Trim(SubRuns(line), false);
    SubRunsClears(line);
    TrimClears(SubRuns(line), false);
    if stripped != [] {
      var kept := BlankRules(Trim(stripped, true));
      TrimClears(stripped, true);
      BlankRulesClears(Trim(stripped, true));
      WordsArePlain(kept);
      JoinIsPlain(Words(kept), ' ');
      WordsOfJoin(Words(kept));
    }
  }

  lemma {:induction false} JoinHasNoEdge(ws: seq<string>, sep: char)
    requires ws != [] && forall w | w in ws :: w != "" && !IsSpace(w[0]) && !IsSpace(w[|w| - 1])
    ensures var t := Join(ws, sep); t != "" && t[0] == ws[0][0] && !IsSpace(t[0]) && !IsSpace(t[|t| - 1])
  {
    if |ws| > 1 {
      JoinHasNoEdge(ws[1..], sep);
    }
  }

  lemma TidyHasNoEdge(l: string)
    requires Tidy(l)
    ensures !IsSpace(l[0]) && !IsSpace(l[|l| - 1]) && '\n' !in l
  {
    JoinHasNoEdge(Words(l), ' ');
    NoBreaks(Words(l));
  }

  lemma {:induction false} NoBreaks(ws: seq<string>)
    requires forall w | w in ws :: IsWord(w)
    ensures '\n' !in Join(ws, ' ')
  {
    if ws != [] {
      NoBreaks(ws[1..]);
      assert IsWord(ws[0]);
    }
  }

  lemma TidyIsLeftAlone(l: string)
    requires Tidy(l)
    ensures CleanLine(l) == [l]
  {
    hide IsSpace, IsRule, IsAsciiRule, SubRuns, Words, Join, Lead;
    SubRunsLeaves(l);
    TidyHasNoEdge(l);
    assert Trim(l, false) == l && Trim(l, true) == l;
    assert BlankRules(l) == l;
  }

  /** A list of lines as stripping leaves it: tidy lines, with single blank lines among them. */
  predicate TidyLines(ls: seq<string>) {
    && (forall l | l in ls :: l == "" || Tidy(l))
    && (forall i | 0 < i < |ls| :: !(ls[i - 1] == "" && ls[i] == ""))
  }

  lemma {:induction false} CleanLinesAreTidy(lines: seq<string>)
    ensures forall l | l in CleanLines(lines) :: l == "" || Tidy(l)
  {
    if lines != [] {
      CleanLinesAreTidy(lines[..|lines| - 1]);
      CleanLineIsTidy(lines[|lines| - 1]);
    }
  }

  lemma {:induction false} CollapseIsTidy(lines: seq<string>)
    requires forall l | l in lines :: l == "" || Tidy(l)
    ensures TidyLines(Collapse(lines))
  {
    if lines != [] {
      CollapseIsTidy(lines[..|lines| - 1]);
    }
  }

  /** The lines without a blank one at either end. */
  function Core(ls: seq<string>): seq<string> {
    var front := if ls != [] && ls[0] == "" then ls[1..] else ls;
    if front != [] && front[|front| - 1] == "" then front[..|front| - 1] else front
  }

  lemma CoreIsTidy(ls: seq<string>)
    requires TidyLines(ls)
    ensures TidyLines(Core(ls)) && (Core(ls) != [] ==> Tidy(Core(ls)[0]) && Tidy(Core(ls)[|Core(ls)| - 1]))
  {
    hide IsSpace, IsRule, IsAsciiRule;
    var front := if ls != [] && ls[0] == "" then ls[1..] else ls;
    if front != [] {
      assert front[0] in ls;
    }
    var core := Core(ls);
    if core != [] {
      assert core[|core| - 1] in ls;
    }
  }

  lemma {:induction false} JoinSnocBlank(ls: seq<string>)
    requires ls != []
    ensures Join(ls + [""], '\n') == Join(ls, '\n') + ['\n']
  {
    if |ls| > 1 {
      assert (ls + [""])[1..] == ls[1..] + [""];
      JoinSnocBlank(ls[1..]);
    } else {
      assert (ls + [""])[1..] == [""];
    }
  }

  lemma {:induction false} JoinEnds(ls: seq<string>)
    requires ls != [] && Tidy(ls[|ls| - 1])
    ensures var t := Join(ls, '\n'); t != "" && !IsSpace(t[|t| - 1])
  {
    if |ls| > 1 {
      JoinEnds(ls[1..]);
    } else {
      TidyHasNoEdge(ls[0]);
    }
  }

  lemma TrimLeftIsFront(ls: seq<string>)
    requires ls != [] ==> ls[0] == "" || Tidy(ls[0])
    requires |ls| > 1 && ls[0] == "" ==> Tidy(ls[1])
    ensures TrimLeft(Join(ls, '\n'), false) == Join(if ls != [] && ls[0] == "" then ls[1..] else ls, '\n')
  {
    var t := Join(ls, '\n');
    if ls != [] && ls[0] == "" {
      if |ls| > 1 {
        TidyHasNoEdge(ls[1]);
        assert t[1..] == Join(ls[1..], '\n') && t[1..][0] == ls[1][0];
      }
    } else if ls != [] {
      TidyHasNoEdge(ls[0]);
      assert t[0] == ls[0][0];
    }
  }

  lemma TrimRightIsBack(ls: seq<string>)
    requires ls != [] ==> ls[|ls| - 1] == "" || Tidy(ls[|ls| - 1])
    requires |ls| > 1 && ls[|ls| - 1] == "" ==> Tidy(ls[|ls| - 2])
    ensures TrimRight(Join(ls, '\n'), false) == Join(if ls != [] && ls[|ls| - 1] == "" then ls[..|ls| - 1] else ls, '\n')
  {
    assert IsSpace('\n');
    hide IsSpace, IsRule, IsAsciiRule;
    if ls != [] && ls[|ls| - 1] == "" {
      var init := ls[..|ls| - 1];
      assert ls == init + [""];
      if init != [] {
        JoinSnocBlank(init);
        JoinEnds(init);
        assert Join(ls, '\n')[..|Join(ls, '\n')| - 1] == Join(init, '\n');
      }
    } else if ls != [] {
      JoinEnds(ls);
    }
  }

  /** Trimming the joined lines is dropping the blank ones at both ends. */
  lemma TrimIsCore(ls: seq<string>)
    requires TidyLines(ls)
    ensures Trim(Join(ls, '\n'), false) == Join(Core(ls), '\n')
  {
    hide Tidy, Join, TrimLeft, TrimRight;
    var front := if ls != [] && ls[0] == "" then ls[1..] else ls;
    forall k | 0 <= k < |front| ensures front[k] == "" || Tidy(front[k]) {
      assert front[k] in ls;
    }
    assert ls != [] ==> ls[0] in ls;
    TrimLeftIsFront(ls);
    TrimRightIsBack(front);
  }

  lemma {:induction false} LinesOfJoin(ls: seq<string>)
    requires ls != [] && forall l | l in ls :: '\n' !in l
    ensures Lines(Join(ls, '\n')) == ls
    decreases |ls|, |ls[0]|
  {
    hide IsSpace, IsRule, IsAsciiRule;
    assert ls[0] in ls;
    if ls[0] == "" {
      if |ls| > 1 {
        LinesOfJoin(ls[1..]);
        assert Join(ls, '\n')[1..] == Join(ls[1..], '\n');
      }
    } else {
      var shorter := [ls[0][1..]] + ls[1..];
      assert shorter[1..] == ls[1..];
      assert Join(ls, '\n')[1..] == Join(shorter, '\n') && Join(ls, '\n')[0] == ls[0][0];
      LinesOfJoin(shorter);
      assert [ls[0][0]] + ls[0][1..] == ls[0] && [ls[0]] + ls[1..] == ls;
    }
  }

  lemma BlankLineStays()
    ensures CleanLine("") == [""]
  {}

  lemma {:induction false} CleanLinesLeave(ls: seq<string>)
    requires forall l | l in ls :: l == "" || Tidy(l)
    ensures CleanLines(ls) == ls
  {
    BlankLineStays();
    hide CleanLine, Tidy;
    if ls != [] {
      var last := ls[|ls| - 1];
      assert last in ls;
      CleanLinesLeave(ls[..|ls| - 1]);
      if last != "" {
        TidyIsLeftAlone(last);
      }
    }
  }

  lemma {:induction false} CollapseLeaves(ls: seq<string>)
    requires TidyLines(ls)
    ensures Collapse(ls) == ls
  {
    if ls != [] {
      CollapseLeaves(ls[..|ls| - 1]);
    }
  }

  /** A stripped text is a list of tidy lines with tidy lines at both ends. */
  lemma StripIsTidy(t: string)
    ensures exists ls :: TidyLines(ls) && Core(ls) == ls && Strip(t) == Join(ls, '\n')
  {
    var ls: seq<string> := [];
    if t != "" {
      var c := Collapse(CleanLines(Lines(t)));
      CleanLinesAreTidy(Lines(t));
      CollapseIsTidy(CleanLines(Lines(t)));
      TrimIsCore(c);
      CoreIsTidy(c);
      ls := Core(c);
    }
    assert TidyLines(ls) && Core(ls) == ls && Strip(t) == Join(ls, '\n');
  }

  /** A stripped text measures zero. */
  lemma {:induction false} StrippedHasNoRules(t: string)
    ensures RuleCount(Strip(t)) == 0
  {
    StripIsTidy(t);
    var ls :| TidyLines(ls) && Core(ls) == ls && Strip(t) == Join(ls, '\n');
    JoinIsPlain(ls, '\n');
    PlainHasNone(Strip(t));
  }

  /** Tidy lines with no blank one at either end. */
  predicate TidyText(t: string) { t == "" || (TidyLines(Lines(t)) && Core(Lines(t)) == Lines(t)) }

  lemma TidyJoinIsLeft(ls: seq<string>)
    requires TidyLines(ls) && Core(ls) == ls
    ensures var t := Join(ls, '\n'); Strip(t) == t && (ls != [] ==> Lines(t) == ls)
  {
    if ls != [] {
      forall l | l in ls ensures '\n' !in l {
        if l != "" {
          TidyHasNoEdge(l);
        }
      }
      LinesOfJoin(ls);
      CleanLinesLeave(ls);
      CollapseLeaves(ls);
      TrimIsCore(ls);
    }
  }

  /** Exactly the tidy texts are left as they are. */
  lemma StripLeavesExactly(t: string)
    ensures Strip(t) == t <==> TidyText(t)
  {
    hide Strip, Lines, TidyLines, Core, Join;
    if Strip(t) == t {
      StripIsTidy(t);
      var ls :| TidyLines(ls) && Core(ls) == ls && Strip(t) == Join(ls, '\n');
      TidyJoinIsLeft(ls);
      JoinIs([], '\n');
    } else if t == "" {
      StripOfNothing();
    } else if TidyText(t) {
      TidyJoinIsLeft(Lines(t));
      LinesJoin(t);
    }
  }

  lemma StripOfNothing()
    ensures Strip("") == ""
  {}

  /** Stripping twice is stripping once. */
  lemma {:induction false} StripIsIdempotent(t: string)
    ensures Strip(Strip(t)) == Strip(t)
  {
    StripIsTidy(t);
    var ls :| TidyLines(ls) && Core(ls) == ls && Strip(t) == Join(ls, '\n');
    TidyJoinIsLeft(ls);
  }

  // ---------------------------------------------------------------------------------
  // What becomes of a line: where the code is not as its docstring says
  // ---------------------------------------------------------------------------------

  predicate NoRules(s: string) { forall i | 0 <= i < |s| :: !IsRule(s[i]) }

  lemma {:induction false} SubRunsBlank(s: string)
    ensures NonSpace(SubRuns(s)) == [] <==> Content(s) == [] && NoRules(s)
  {
    hide IsSpace, IsRule, IsAsciiRule, SubRuns, Keep, NoRules;
    SubRunsIs(s);
    HeadIsBlank(s);
    if s != [] {
      var n := Lead(s);
      var head := if IsAsciiRule(s[0]) && n >= MIN_ASCII_RUN then " " else s[..n];
      SubRunsBlank(s[n..]);
      KeepConcat(head, SubRuns(s[n..]), false);
      KindsAreDisjoint(s[0]);
    }
  }

  lemma HeadIsBlank(s: string)
    ensures NonSpace([]) == [] && NonSpace(" ") == [] && NoRules([])
    ensures s != [] ==> (NonSpace(s[..Lead(s)]) == [] <==> IsSpace(s[0]))
    ensures s != [] ==> (NoRules(s) <==> !IsRule(s[0]) && NoRules(s[Lead(s)..]))
  {
    assert IsSpace(' ') && Keep(" ", false) == Keep(" "[1..], false);
    hide IsSpace, IsRule, IsAsciiRule;
    if s != [] {
      KeepRun(s[..Lead(s)], false);
      assert forall i | Lead(s) <= i < |s| :: s[i] == s[Lead(s)..][i - Lead(s)];
    }
  }

  lemma TrimBlank(s: string)
    ensures Trim(s, false) == [] <==> NonSpace(s) == []
  {
    TrimKeeps(s, false, false);
    var t := Trim(s, false);
    if t != [] {
      assert t[0] == TrimLeft(s, false)[0];
    }
  }

  /** A line without words stays as a blank line unless it has a rule character, and only then vanishes. */
  lemma {:induction false} BlankOrGone(line: string)
    ensures CleanLine(line) == [""] <==> Content(line) == "" && NoRules(line)
    ensures CleanLine(line) == [] <==> Content(line) == "" && !NoRules(line)
  {
    SubRunsBlank(line);
    TrimBlank(SubRuns(line));
    CleanLineKeeps(line);
    hide IsSpace, IsRule, IsAsciiRule, SubRuns, Words, Lead, Content, NoRules, Trim, BlankRules;
    var stripped := Trim(SubRuns(line), false);
    if stripped != [] {
      var ws := Words(BlankRules(Trim(stripped, true)));
      if ws != [] {
        assert forall w | w in ws :: IsWord(w);
        JoinHasNoEdge(ws, ' ');
        assert KeepAll([Join(ws, ' ')]) == NonSpace(Join(ws, ' ')) + KeepAll([]);
      }
    }
  }

  lemma {:induction false} WordsSkip(gap: string, b: string)
    requires forall i | 0 <= i < |gap| :: IsSpace(gap[i])
    ensures Words(gap + b) == Words(b)
  {
    if gap == [] {
      assert gap + b == b;
    } else {
      assert (gap + b)[1..] == gap[1..] + b;
      WordsSkip(gap[1..], b);
    }
  }

  /** Every space is a blank between two words. */
  predicate SingleSpaced(l: string) {
    forall i | 0 <= i < |l| && IsSpace(l[i]) :: l[i] == ' ' && 0 < i < |l| - 1 && !IsSpace(l[i + 1])
  }

  lemma SpacedTogether(w: string, rest: string)
    requires IsWord(w) && rest != [] && !IsSpace(rest[0]) && SingleSpaced(rest)
    ensures SingleSpaced(w + ([' '] + rest))
  {
    hide IsSpace;
    var t := w + ([' '] + rest);
    assert forall i | 0 <= i < |w| :: t[i] == w[i];
    forall i | 0 <= i < |t| && IsSpace(t[i]) ensures t[i] == ' ' && 0 < i < |t| - 1 && !IsSpace(t[i + 1]) {
      if i == |w| {
        assert t[i + 1] == rest[0];
      } else if i > |w| {
        assert t[i] == rest[i - |w| - 1] && t[i + 1] == rest[i - |w|];
      }
    }
  }

  lemma SpacedApart(l: string, n: nat)
    requires SingleSpaced(l) && n < |l| && IsSpace(l[n])
    ensures 0 < n < |l| - 1 && l[n] == ' ' && !IsSpace(l[n + 1]) && SingleSpaced(l[n + 1..])
    ensures l == l[..n] + ([' '] + l[n + 1..])
  {
    hide IsSpace;
    var rest := l[n + 1..];
    forall i | 0 <= i < |rest| && IsSpace(rest[i]) ensures rest[i] == ' ' && 0 < i < |rest| - 1 && !IsSpace(rest[i + 1]) {
      assert rest[i] == l[n + 1 + i];
    }
  }

  lemma {:induction false} JoinIsSingleSpaced(ws: seq<string>)
    requires forall w | w in ws :: IsWord(w)
    ensures SingleSpaced(Join(ws, ' '))
  {
    JoinIs(ws, ' ');
    hide Join, IsSpace;
    if |ws| > 1 {
      assert IsWord(ws[0]) && IsWord(ws[1]);
      JoinIsSingleSpaced(ws[1..]);
      JoinHasNoEdge(ws[1..], ' ');
      SpacedTogether(ws[0], Join(ws[1..], ' '));
    } else if |ws| == 1 {
      assert IsWord(ws[0]);
    }
  }

  lemma {:induction false} SingleSpacedIsJoin(l: string)
    requires SingleSpaced(l)
    ensures Join(Words(l), ' ') == l
    decreases |l|
  {
    var n := WordLen(l);
    NoWordsInNothing();
    JoinIs([], ' ');
    hide IsSpace, Words, WordLen, SingleSpaced, Join;
    if l != [] {
      FirstIsNoSpace(l);
      assert IsWord(l[..n]);
      if n < |l| {
        var rest := l[n + 1..];
        SpacedApart(l, n);
        FirstWord(l[..n], [' '] + rest);
        WordsSkip([' '], rest);
        SingleSpacedIsJoin(rest);
        JoinIs([l[..n]] + Words(rest), ' ');
        assert ([l[..n]] + Words(rest))[1..] == Words(rest) && Words(rest) != [];
      } else {
        FirstWord(l, []);
        JoinIs([l] + [], ' ');
        assert l + [] == l && l[..n] == l;
      }
    }
  }

  lemma FirstIsNoSpace(l: string)
    requires SingleSpaced(l) && l != []
    ensures !IsSpace(l[0]) && WordLen(l) > 0
  {}

  lemma WordsMakeLine(l: string)
    ensures Join(Words(l), ' ') == l <==> SingleSpaced(l)
  {
    if SingleSpaced(l) { SingleSpacedIsJoin(l); } else { JoinIsSingleSpaced(Words(l)); }
  }

  /** Exactly the undecorated lines with single spaces between their words are left as they are. */
  lemma LeftAloneExactly(l: string)
    ensures CleanLine(l) == [l] <==> Plain(l) && SingleSpaced(l)
  {
    WordsMakeLine(l);
    if l == "" {
      BlankLineStays();
    } else if Tidy(l) {
      TidyIsLeftAlone(l);
    } else {
      CleanLineIsTidy(l);
    }
  }

  /** A line without its decoration, and without the spaces at its edges. */
  function Prose(line: string): string { Trim(BlankRules(SubRuns(line)), false) }

  lemma {:induction false} TrimLeftOfBlanked(s: string)
    ensures TrimLeft(BlankRules(s), false) == BlankRules(TrimLeft(s, true))
  {
    assert IsSpace(' ');
    hide IsSpace, IsRule;
    if s != [] && Edge(s[0], true) {
      assert BlankRules(s)[1..] == BlankRules(s[1..]);
      TrimLeftOfBlanked(s[1..]);
    }
  }

  lemma {:induction false} TrimRightOfBlanked(s: string)
    ensures TrimRight(BlankRules(s), false) == BlankRules(TrimRight(s, true))
  {
    assert IsSpace(' ');
    hide IsSpace, IsRule;
    if s != [] && Edge(s[|s| - 1], true) {
      assert BlankRules(s)[..|s| - 1] == BlankRules(s[..|s| - 1]);
      TrimRightOfBlanked(s[..|s| - 1]);
    }
  }

  lemma {:induction false} TrimLeftTwice(s: string)
    ensures TrimLeft(TrimLeft(s, false), true) == TrimLeft(s, true)
  {
    if s != [] && IsSpace(s[0]) { TrimLeftTwice(s[1..]); }
  }

  lemma {:induction false} TrimRightFirst(s: string)
    ensures TrimRight(TrimLeft(TrimRight(s, false), true), true) == TrimRight(TrimLeft(s, true), true)
  {
    hide IsSpace, IsRule;
    if s != [] && Edge(s[|s| - 1], false) {
      var init := s[..|s| - 1];
      TrimRightFirst(init);
      TrimLeftOfSnoc(init, s[|s| - 1]);
      assert s == init + [s[|s| - 1]];
    }
  }

  /** A space at the end makes no difference to what is left between the edges. */
  lemma {:induction false} TrimLeftOfSnoc(init: string, c: char)
    requires Edge(c, true)
    ensures TrimRight(TrimLeft(init + [c], true), true) == TrimRight(TrimLeft(init, true), true)
  {
    hide IsSpace, IsRule;
    if init == [] {
      assert init + [c] == [c] && [c][1..] == [];
    } else if Edge(init[0], true) {
      assert (init + [c])[1..] == init[1..] + [c];
      TrimLeftOfSnoc(init[1..], c);
    } else {
      assert (init + [c])[..|init|] == init;
    }
  }

  lemma ProseIsTrimmed(line: string)
    ensures Prose(line) == BlankRules(Trim(Trim(SubRuns(line), false), true))
  {
    var s := SubRuns(line);
    TrimLeftOfBlanked(s);
    TrimRightOfBlanked(TrimLeft(s, true));
    TrimRightFirst(TrimLeft(s, false));
    TrimLeftTwice(s);
  }

  /** The words of a line are kept with the spacing they had exactly if every gap was one blank. */
  lemma {:induction false} SpacingKeptExactly(line: string)
    requires Content(line) != ""
    ensures CleanLine(line) == [Join(Words(Prose(line)), ' ')]
    ensures CleanLine(line) == [Prose(line)] <==> SingleSpaced(Prose(line))
  {
    BlankOrGone(line);
    ProseIsTrimmed(line);
    WordsMakeLine(Prose(line));
    hide IsSpace, IsRule, IsAsciiRule, SubRuns, Words, Join, Trim, BlankRules, Content, SingleSpaced;
  }

  /** Of an undecorated line nothing but the spaces at its edges can be lost. */
  lemma ProseOfPlain(line: string)
    requires Plain(line)
    ensures Prose(line) == Trim(line, false)
    ensures CleanLine(line) == [Trim(line, false)] <==> SingleSpaced(Trim(line, false))
  {
    SubRunsLeaves(line);
    assert BlankRules(line) == line;
    if Content(line) == "" {
      BlankOrGone(line);
      SubRunsBlank(line);
      TrimBlank(line);
      assert CleanLine(line) == [""] && Trim(line, false) == "";
    } else {
      SpacingKeptExactly(line);
    }
  }

  /** However wide the gap between two columns, one space of it is left. */
  lemma ColumnsCloseUp(a: string, gap: string, b: string)
    requires IsWord(a) && Plain(a) && IsWord(b) && Plain(b)
    requires gap != [] && forall i | 0 <= i < |gap| :: IsSpace(gap[i])
    ensures CleanLine(a + gap + b) == [a + " " + b]
  {
    hide IsSpace, IsRule, IsAsciiRule, SubRuns, Words, Lead, NoTriple, IsWord;
    var line := a + gap + b;
    GapIsPlain(a, gap, b);
    SubRunsLeaves(line);
    WordsApart(a, gap, b);
    assert Trim(line, false) == line && Trim(line, true) == line;
    assert BlankRules(line) == line;
    assert Join([a, b], ' ') == a + " " + b;
  }

  lemma GapIsPlain(a: string, gap: string, b: string)
    requires IsWord(a) && Plain(a) && IsWord(b) && Plain(b)
    requires gap != [] && forall i | 0 <= i < |gap| :: IsSpace(gap[i])
    ensures var line := a + gap + b; Plain(line) && !IsSpace(line[0]) && !IsSpace(line[|line| - 1])
  {
    forall i | 0 <= i < |gap| ensures !IsRule(gap[i]) && !IsAsciiRule(gap[i]) { KindsAreDisjoint(gap[i]); }
    assert !IsAsciiRule(gap[0]) && !IsAsciiRule(gap[|gap| - 1]) && IsSpace(gap[|gap| - 1]);
    hide IsSpace, IsRule, IsAsciiRule;
    NoTripleConcat(a, gap);
    assert (a + gap)[|a + gap| - 1] == gap[|gap| - 1];
    NoTripleConcat(a + gap, b);
    var line := a + gap + b;
    assert line[0] == a[0] && line[|line| - 1] == b[|b| - 1];
  }

  lemma {:induction false} WordsApart(a: string, gap: string, b: string)
    requires IsWord(a) && IsWord(b) && gap != [] && forall i | 0 <= i < |gap| :: IsSpace(gap[i])
    ensures Words(a + gap + b) == [a, b]
  {
    hide IsSpace, Words, WordLen;
    assert a + gap + b == a + (gap + b) && (gap + b)[0] == gap[0];
    FirstWord(a, gap + b);
    WordsSkip(gap, b);
    FirstWord(b, []);
    assert b + [] == b && [a] + [b] == [a, b] && [b] + [] == [b];
    NoWordsInNothing();
  }

  lemma NoWordsInNothing()
    ensures Words([]) == []
  {}

  lemma {:induction false} FirstWord(w: string, rest: string)
    requires IsWord(w) && (rest != [] ==> IsSpace(rest[0]))
    ensures Words(w + rest) == [w] + Words(rest)
  {
    hide IsSpace;
    var t := w + rest;
    assert forall i | 0 <= i < |w| :: t[i] == w[i];
    assert t[0] == w[0] && (rest != [] ==> t[|w|] == rest[0]);
    assert WordLen(t) == |w|;
    assert t[..|w|] == w && t[|w|..] == rest;
  }
}
