/** `InflectStringUTF16` of inflections.cpp: sex recognition, then, for each
    of the ten word slots, classification of the word as a first name or a
    surname, rule lookup for its hyphen parts, and assembly of the answer in
    six accumulators `Ans[0..5]` (or only `Ans[0]` when one case is asked for).

    The rule lists and name lists that `Service::Init` loads into globals are
    a `Config` parameter here. */
module Declension {
  import opened Types
  import opened Casing
  import opened Splitting
  import opened Rules
  import opened SexResolution

  /** The five rule lists and the two name sets. */
  datatype Config = Config(
    maleNameRules: seq<Rule>,
    maleSurnameRules: seq<Rule>,
    femaleNameRules: seq<Rule>,
    femaleSurnameRules: seq<Rule>,
    femaleOnlySurnameRules: seq<Rule>,
    maleNames: set<string>,
    femaleNames: set<string>)

  /** The name set and rule lists chosen for the resolved sex. */
  datatype Tables = Tables(names: set<string>, nameRules: seq<Rule>, surnameRules: seq<Rule>)

  function TablesFor(cfg: Config, s: Sex): Tables {
    if s == Male then Tables(cfg.maleNames, cfg.maleNameRules, cfg.maleSurnameRules)
    else Tables(cfg.femaleNames, cfg.femaleNameRules, cfg.femaleSurnameRules)
  }

  /** How many accumulators are written: all six in "all" mode, else `Ans[0]`. */
  function SlotCount(gc: GrammaticalCase): nat {
    if gc == All then 6 else 1
  }

  /** The case whose endings accumulator `k` receives. */
  function SlotCase(gc: GrammaticalCase, k: nat): GrammaticalCase
    requires k < SlotCount(gc)
  {
    if gc == All then AllCases[k] else gc
  }

  function AppendEach(acc: seq<string>, x: string): (r: seq<string>)
    ensures |r| == |acc|
    ensures forall k {:trigger r[k]} :: 0 <= k < |acc| ==> r[k] == acc[k] + x
  {
    if acc == [] then [] else [acc[0] + x] + AppendEach(acc[1..], x)
  }

  /** One accumulator with the ending of case `c` appended, title-cased as a whole. */
  function WithEnding(line: string, rule: Rule, c: GrammaticalCase): string {
    ToTitle(line + CaseEnding(rule, c))
  }

  /** Each accumulator gets its case's ending appended and is then title-cased
      as a whole. */
  function AppendEndingTitled(acc: seq<string>, rule: Rule, gc: GrammaticalCase): (r: seq<string>)
    requires |acc| <= SlotCount(gc)
    ensures |r| == |acc|
    ensures forall k {:trigger r[k]} :: 0 <= k < |acc| ==> r[k] == WithEnding(acc[k], rule, SlotCase(gc, k))
  {
    if acc == [] then []
    else AppendEndingTitled(acc[..|acc| - 1], rule, gc) + [WithEnding(acc[|acc| - 1], rule, SlotCase(gc, |acc| - 1))]
  }

  /** All parts of a word are in the name set. */
  predicate IsNameWord(parts: seq<string>, names: set<string>) {
    forall j :: 0 <= j < |parts| ==> parts[j] in names
  }

  /** A declined part: every accumulator gets the stem left by the first
      matching rule, then that rule's ending for its case, and is then
      title-cased as a whole; with no matching rule the title-cased part is
      appended. */
  function DeclinedStep(acc: seq<string>, part: string, rules: seq<Rule>, gc: GrammaticalCase): (r: seq<string>)
    requires |acc| == SlotCount(gc)
    ensures |r| == |acc|
  {
    match FirstMatch(part, rules)
    case Some(i) =>
      var stem := Truncate(part, LastIndexOf(part, rules[i].ending));
      AppendEndingTitled(AppendEach(acc, stem), rules[i], gc)
    case None => AppendEach(acc, ToTitle(part))
  }

  /** One lower-cased hyphen part. Any part of a surname and the last part of
      a first name are declined, and a hyphen follows every part but the last;
      a non-last part of a first name is appended title-cased with its hyphen. */
  function PieceStep(acc: seq<string>, part: string, isName: bool, isLast: bool,
                     rules: seq<Rule>, gc: GrammaticalCase): (r: seq<string>)
    requires |acc| == SlotCount(gc)
    ensures |r| == |acc|
  {
    if !isName || isLast then
      var declined := DeclinedStep(acc, part, rules, gc);
      if isLast then declined else AppendEach(declined, "-")
    else
      AppendEach(acc, ToTitle(part) + "-")
  }

  /** The accumulators after the first `j` parts of a word. */
  function PiecesUpTo(acc: seq<string>, parts: seq<string>, isName: bool, rules: seq<Rule>,
                      gc: GrammaticalCase, j: nat): (r: seq<string>)
    requires |acc| == SlotCount(gc) && j <= |parts|
    ensures |r| == |acc|
  {
    if j == 0 then acc
    else PieceStep(PiecesUpTo(acc, parts, isName, rules, gc, j - 1), parts[j - 1],
                   isName, j - 1 == |parts| - 1, rules, gc)
  }

  /** One word slot: split on hyphens and lower-case the parts, classify the
      word, put a space in front of it when `Ans[0]` is non-empty, then the
      parts. */
  function WordStep(acc: seq<string>, word: string, t: Tables, gc: GrammaticalCase): (r: seq<string>)
    requires |acc| == SlotCount(gc)
    ensures |r| == |acc|
  {
    var parts := LowerParts(word);
    var isName := IsNameWord(parts, t.names);
    var spaced := if acc[0] != [] then AppendEach(acc, " ") else acc;
    PiecesUpTo(spaced, parts, isName, if isName then t.nameRules else t.surnameRules, gc, |parts|)
  }

  function EmptyLines(gc: GrammaticalCase): (r: seq<string>)
    ensures |r| == SlotCount(gc)
    ensures forall k :: 0 <= k < |r| ==> r[k] == []
  {
    if gc == All then [[], [], [], [], [], []] else [[]]
  }

  /** The accumulators after the first `i` word slots. */
  function LinesUpTo(words: seq<string>, t: Tables, gc: GrammaticalCase, i: nat): (r: seq<string>)
    requires i <= |words|
    ensures |r| == SlotCount(gc)
    decreases i, 0
  {
    if i == 0 then EmptyLines(gc) else LinesAfter(words, t, gc, i - 1)
  }

  /** The accumulators once word slot `i` is declined. */
  function LinesAfter(words: seq<string>, t: Tables, gc: GrammaticalCase, i: nat): (r: seq<string>)
    requires i < |words|
    ensures |r| == SlotCount(gc)
    decreases i, 1
  {
    WordStep(LinesUpTo(words, t, gc, i), words[i], t, gc)
  }

  /** One more word slot is one more word step. */
  lemma LinesUpToStep(words: seq<string>, t: Tables, gc: GrammaticalCase, j: nat)
    requires j < |words|
    ensures LinesUpTo(words, t, gc, j + 1) == WordStep(LinesUpTo(words, t, gc, j), words[j], t, gc)
  {
    assert LinesUpTo(words, t, gc, j + 1) == LinesAfter(words, t, gc, j);
  }

  /** The sex the engine declines `input` with. */
  function SexOf(input: string, given: Sex, cfg: Config): Sex {
    ResolvedSex(SplitWords(input), given, cfg.maleNames, cfg.femaleNames, cfg.femaleOnlySurnameRules)
  }

  /** The accumulators after all ten word slots, as the engine is written:
      the loop visits every slot of `words`, the empty ones included. */
  function CaseLines(input: string, given: Sex, gc: GrammaticalCase, cfg: Config): (r: seq<string>)
    ensures |r| == SlotCount(gc)
  {
    LinesUpTo(Slots(input), TablesFor(cfg, SexOf(input, given, cfg)), gc, MaxWords)
  }

  /** The accumulators after the filled word slots only (`wordsNum` of them):
      the loop the engine evidently means, without the empty trailing slots. */
  function FilledCaseLines(input: string, given: Sex, gc: GrammaticalCase, cfg: Config): (r: seq<string>)
    ensures |r| == SlotCount(gc)
  {
    var words := SplitWords(input);
    LinesUpTo(words, TablesFor(cfg, SexOf(input, given, cfg)), gc, |words|)
  }

  /** The answer: in "all" mode the six accumulators joined by line breaks,
      nominative first and no break after the last; otherwise `Ans[0]`. */
  function Assemble(lines: seq<string>, gc: GrammaticalCase): string
    requires |lines| == SlotCount(gc)
  {
    if gc == All then JoinWith("\n", lines) else lines[0]
  }

  /** What `InflectStringUTF16(input, given, gc)` returns. */
  function Inflect(input: string, given: Sex, gc: GrammaticalCase, cfg: Config): string {
    Assemble(CaseLines(input, given, gc, cfg), gc)
  }

  /** What the engine returns once its word loop stops at `wordsNum`. */
  function InflectFilled(input: string, given: Sex, gc: GrammaticalCase, cfg: Config): string {
    Assemble(FilledCaseLines(input, given, gc, cfg), gc)
  }

  /** `Ans[k].append(x)` for every written accumulator. */
  method AppendToEach(Ans: array<string>, m: nat, x: string)
    requires m <= Ans.Length
    modifies Ans
    ensures Ans[..m] == AppendEach(old(Ans[..m]), x)
    ensures forall k :: m <= k < Ans.Length ==> Ans[k] == old(Ans[k])
  {
    for k := 0 to m
      invariant forall q :: 0 <= q < k ==> Ans[q] == old(Ans[q]) + x
      invariant forall q :: k <= q < Ans.Length ==> Ans[q] == old(Ans[q])
    {
      Ans[k] := Ans[k] + x;
    }
  }

  /** `Ans[k].append(ending of case k).toTitle(...)` for every written accumulator. */
  method AppendEndingAndTitle(Ans: array<string>, m: nat, rule: Rule, gc: GrammaticalCase)
    requires m == SlotCount(gc) && m <= Ans.Length
    modifies Ans
    ensures Ans[..m] == AppendEndingTitled(old(Ans[..m]), rule, gc)
    ensures forall k :: m <= k < Ans.Length ==> Ans[k] == old(Ans[k])
  {
    for k := 0 to m
      invariant forall q :: 0 <= q < k ==> Ans[q] == WithEnding(old(Ans[q]), rule, SlotCase(gc, q))
      invariant forall q :: k <= q < Ans.Length ==> Ans[q] == old(Ans[q])
    {
      Ans[k] := WithEnding(Ans[k], rule, SlotCase(gc, k));
    }
  }

  /** Split a word on hyphens, lower-case its parts in place, and check
      whether every part is in the name set. */
  method LowerAndClassify(word: string, names: set<string>) returns (str: seq<string>, isName: bool)
    ensures str == LowerParts(word)
    ensures isName == IsNameWord(str, names)
  {
    str := SplitHyphens(word);
    var num := |str|;
    ghost var lowered := LowerParts(word);
    isName := true;
    for j := 0 to num
      invariant |str| == num
      invariant str[..j] == lowered[..j]
      invariant forall q :: j <= q < num ==> str[q] == SplitHyphens(word)[q]
      invariant isName == IsNameWord(lowered[..j], names)
    {
      str := str[j := ToLower(str[j])];
      LowerPartsAt(word, j);
      assert lowered[..j + 1] == lowered[..j] + [lowered[j]];
      isName := isName && str[j] in names;
    }
    assert str == str[..num];
  }

  /** One pass of the part loop: decline or title-case `part` (held in
      `Str[j]`, which is truncated or title-cased in place) into every written
      accumulator. */
  method DeclinePart(Ans: array<string>, m: nat, part: string, isName: bool, isLast: bool,
                     rules: seq<Rule>, gc: GrammaticalCase)
    requires Ans.Length == 6 && m == SlotCount(gc)
    modifies Ans
    ensures Ans[..m] == PieceStep(old(Ans[..m]), part, isName, isLast, rules, gc)
    ensures forall k :: m <= k < 6 ==> Ans[k] == old(Ans[k])
  {
    var str := part;
    if !isName || isLast {
      var found := FindRule(str, rules);
      if found.Some? {
        var rule := rules[found.value];
        str := Truncate(str, LastIndexOf(str, rule.ending));
        AppendToEach(Ans, m, str);
        AppendEndingAndTitle(Ans, m, rule, gc);
      } else {
        str := ToTitle(str);
        AppendToEach(Ans, m, str);
      }
      if !isLast {
        AppendToEach(Ans, m, "-");
      }
    } else {
      str := ToTitle(str);
      AppendToEach(Ans, m, str + "-");
    }
  }

  /** The body of the word loop for one slot `word`. */
  method DeclineWord(Ans: array<string>, m: nat, word: string, t: Tables, gc: GrammaticalCase)
    requires Ans.Length == 6 && m == SlotCount(gc)
    modifies Ans
    ensures Ans[..m] == WordStep(old(Ans[..m]), word, t, gc)
    ensures forall k :: m <= k < 6 ==> Ans[k] == old(Ans[k])
  {
    var str, isName := LowerAndClassify(word, t.names);
    var num := |str|;
    if Ans[0] != [] {
      AppendToEach(Ans, m, " ");
    }
    ghost var spaced := Ans[..m];
    var rules := if isName then t.nameRules else t.surnameRules;
    for j := 0 to num
      invariant Ans[..m] == PiecesUpTo(spaced, str, isName, rules, gc, j)
      invariant forall k :: m <= k < 6 ==> Ans[k] == old(Ans[k])
    {
      DeclinePartAt(Ans, m, spaced, str, isName, rules, gc, j);
    }
  }

  /** Part `j` of the part loop takes the accumulators after the first `j`
      parts to those after the first `j + 1`. */
  method DeclinePartAt(Ans: array<string>, m: nat, ghost start: seq<string>, str: seq<string>, isName: bool,
                       rules: seq<Rule>, gc: GrammaticalCase, j: nat)
    requires Ans.Length == 6 && m == SlotCount(gc) && |start| == m && j < |str|
    requires Ans[..m] == PiecesUpTo(start, str, isName, rules, gc, j)
    modifies Ans
    ensures Ans[..m] == PiecesUpTo(start, str, isName, rules, gc, j + 1)
    ensures forall k :: m <= k < 6 ==> Ans[k] == old(Ans[k])
  {
    DeclinePart(Ans, m, str[j], isName, j == |str| - 1, rules, gc);
  }

  /** The word loop over the first `count` slots of `words`, starting from
      empty accumulators. */
  method DeclineSlots(words: seq<string>, count: nat, t: Tables, gc: GrammaticalCase)
    returns (Ans: array<string>)
    requires count <= |words|
    ensures Ans.Length == 6
    ensures Ans[..SlotCount(gc)] == LinesUpTo(words, t, gc, count)
  {
    var m := SlotCount(gc);
    Ans := NewAnswers(words, t, gc);
    for i := 0 to count
      invariant Ans[..m] == LinesUpTo(words, t, gc, i)
    {
      DeclineSlot(Ans, m, words, i, t, gc);
    }
  }

  /** `UnicodeString Ans[6]`: six empty accumulators, which are the
      accumulators before the first word slot. */
  method NewAnswers(words: seq<string>, t: Tables, gc: GrammaticalCase) returns (Ans: array<string>)
    ensures fresh(Ans) && Ans.Length == 6
    ensures Ans[..SlotCount(gc)] == LinesUpTo(words, t, gc, 0)
  {
    Ans := new string[6][[], [], [], [], [], []];
    assert Ans[..SlotCount(gc)] == EmptyLines(gc);
  }

  /** Word slot `i` of the word loop takes the accumulators of the first `i`
      slots to those of the first `i + 1`. */
  method DeclineSlot(Ans: array<string>, m: nat, words: seq<string>, i: nat, t: Tables, gc: GrammaticalCase)
    requires Ans.Length == 6 && m == SlotCount(gc) && i < |words|
    requires Ans[..m] == LinesUpTo(words, t, gc, i)
    modifies Ans
    ensures Ans[..m] == LinesUpTo(words, t, gc, i + 1)
  {
    DeclineWord(Ans, m, words[i], t, gc);
    LinesUpToStep(words, t, gc, i);
  }

  /** The final assembly: six lines joined by line breaks in "all" mode,
      `Ans[0]` otherwise. */
  method AssembleAnswer(Ans: array<string>, gc: GrammaticalCase) returns (ans: string)
    requires Ans.Length == 6
    ensures ans == Assemble(Ans[..SlotCount(gc)], gc)
  {
    if gc == All {
      ans := [];
      for i := 0 to 5
        invariant ans == Terminated(Ans[..i], "\n")
      {
        assert Ans[..i + 1][..i] == Ans[..i];
        ans := ans + Ans[i] + "\n";
      }
      ans := ans + Ans[5];
      JoinAsTerminated("\n", Ans[..6]);
      assert Ans[..6][..5] == Ans[..5];
    } else {
      ans := Ans[0];
    }
  }

  /** `InflectStringUTF16(in, sexType, grammaticalCase)` as written: the word
      loop visits all ten slots. */
  method InflectStringUtf16(input: string, given: Sex, gc: GrammaticalCase, cfg: Config)
    returns (ans: string)
    ensures ans == Inflect(input, given, gc, cfg)
  {
    var words := Slots(input);
    var wordsNum := |SplitWords(input)|;
    var sexType := ResolveSex(words, wordsNum, given, cfg.maleNames, cfg.femaleNames,
                              cfg.femaleOnlySurnameRules);
    var Ans := DeclineSlots(words, MaxWords, TablesFor(cfg, sexType), gc);
    ans := AssembleAnswer(Ans, gc);
  }

  /** The engine with its word loop bounded by `wordsNum`, the number of
      fields the split produced. */
  method InflectPhrase(input: string, given: Sex, gc: GrammaticalCase, cfg: Config)
    returns (ans: string)
    ensures ans == InflectFilled(input, given, gc, cfg)
  {
    var words := Slots(input);
    var wordsNum := |SplitWords(input)|;
    var sexType := ResolveSex(words, wordsNum, given, cfg.maleNames, cfg.femaleNames,
                              cfg.femaleOnlySurnameRules);
    var Ans := DeclineSlots(words[..wordsNum], wordsNum, TablesFor(cfg, sexType), gc);
    ans := AssembleAnswer(Ans, gc);
  }
}
