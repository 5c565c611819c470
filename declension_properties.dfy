/** What the accumulators of `InflectStringUTF16` hold, stated without the
    accumulators: each word has one declined form per case, the forms of the
    words are joined by single spaces, and the ten-slot word loop leaves one
    extra space per empty slot. */
module DeclensionProperties {
  import opened Types
  import opened Casing
  import opened Splitting
  import opened Rules
  import opened SexResolution
  import opened Declension

  /** The form of one lower-cased hyphen part in case `c`. A declined part
      whose first matching rule has ending `e` becomes its stem (the part
      without `e`) followed by the rule's ending for `c`, title-cased; a part
      without a matching rule, or one that is not declined, is title-cased. */
  function PartForm(part: string, declined: bool, rules: seq<Rule>, c: GrammaticalCase): string {
    if declined then DeclinedForm(part, rules, c) else ToTitle(part)
  }

  /** The forms of all parts of a word: every part of a surname is declined,
      only the last part of a first name is. */
  function Forms(parts: seq<string>, isName: bool, rules: seq<Rule>, c: GrammaticalCase): (r: seq<string>)
    ensures |r| == |parts|
    ensures forall j {:trigger r[j]} :: 0 <= j < |parts| ==> r[j] == PartForm(parts[j], !isName || j == |parts| - 1, rules, c)
  {
    if parts == [] then []
    else [PartForm(parts[0], !isName || |parts| == 1, rules, c)] + Forms(parts[1..], isName, rules, c)
  }

  /** The form of one word in case `c`: its part forms joined by hyphens. */
  function WordForm(word: string, t: Tables, c: GrammaticalCase): string {
    var parts := LowerParts(word);
    var isName := IsNameWord(parts, t.names);
    JoinWith("-", Forms(parts, isName, if isName then t.nameRules else t.surnameRules, c))
  }

  /** The form a part takes when it is declined. */
  function DeclinedForm(part: string, rules: seq<Rule>, c: GrammaticalCase): string {
    match FirstMatch(part, rules)
    case Some(i) => ToTitle(part[..|part| - |rules[i].ending|] + CaseEnding(rules[i], c))
    case None => ToTitle(part)
  }

  /** Appending a matched part: the stem the engine truncates to, then the
      ending for each line's case, then title-casing the whole line, adds
      exactly the title-cased stem plus ending. */
  lemma MatchedStepForm(acc: seq<string>, part: string, rule: Rule, gc: GrammaticalCase, k: nat)
    requires |acc| == SlotCount(gc) && k < |acc|
    requires Titled(acc[k]) && EndsOpen(acc[k]) && EndsWith(part, rule.ending)
    ensures var stem := Truncate(part, LastIndexOf(part, rule.ending));
            var x := part[..|part| - |rule.ending|] + CaseEnding(rule, SlotCase(gc, k));
            && AppendEndingTitled(AppendEach(acc, stem), rule, gc)[k] == acc[k] + ToTitle(x)
            && Titled(acc[k] + ToTitle(x))
  {
    var c := SlotCase(gc, k);
    var e := CaseEnding(rule, c);
    var stem := part[..|part| - |rule.ending|];
    var appended := AppendEach(acc, Truncate(part, LastIndexOf(part, rule.ending)));
    assert appended[k] == acc[k] + stem by {
      TruncateAtEnding(part, rule.ending);
    }
    assert AppendEndingTitled(appended, rule, gc)[k] == ToTitle(acc[k] + (stem + e)) by {
      SeqAssoc(acc[k], stem, e);
    }
    RetitleAfterOpen(acc[k], stem + e);
  }

  lemma SeqAssoc(a: string, b: string, c: string)
    ensures (a + b) + c == a + (b + c)
  {
  }

  /** A declined part on an accumulator that is title-cased and ends at a word
      boundary: the accumulator gains exactly the part's declined form and
      stays title-cased. */
  lemma DeclinedStepForm(acc: seq<string>, part: string, rules: seq<Rule>, gc: GrammaticalCase, k: nat)
    requires |acc| == SlotCount(gc) && k < |acc|
    requires Titled(acc[k]) && EndsOpen(acc[k])
    ensures DeclinedStep(acc, part, rules, gc)[k] == acc[k] + DeclinedForm(part, rules, SlotCase(gc, k))
    ensures Titled(DeclinedStep(acc, part, rules, gc)[k])
  {
    match FirstMatch(part, rules)
    case Some(i) => {
      MatchedStepForm(acc, part, rules[i], gc, k);
    }
    case None => {
      RetitleAfterOpen(acc[k], part);
    }
  }

  /** One part appended to an accumulator that is title-cased and ends at a
      word boundary: the accumulator gains exactly the part's form (and a
      hyphen unless the part is the last), and stays title-cased. */
  lemma PieceStepForm(acc: seq<string>, part: string, isName: bool, isLast: bool,
                      rules: seq<Rule>, gc: GrammaticalCase, k: nat)
    requires |acc| == SlotCount(gc) && k < |acc|
    requires Titled(acc[k]) && EndsOpen(acc[k])
    ensures PieceStep(acc, part, isName, isLast, rules, gc)[k]
         == acc[k] + PartForm(part, !isName || isLast, rules, SlotCase(gc, k)) + (if isLast then [] else "-")
    ensures Titled(PieceStep(acc, part, isName, isLast, rules, gc)[k])
  {
    if !isName || isLast {
      DeclinedStepForm(acc, part, rules, gc, k);
      var declined := DeclinedStep(acc, part, rules, gc)[k];
      if !isLast {
        TitledAppendNonLetters(declined, "-");
      }
    } else {
      RetitleAfterOpen(acc[k], part);
      TitledAppendNonLetters(acc[k] + ToTitle(part), "-");
      assert acc[k] + (ToTitle(part) + "-") == acc[k] + ToTitle(part) + "-";
    }
  }

  /** Before the last part, an accumulator that was title-cased and ended at
      a word boundary holds the first `j` forms, each followed by a hyphen. */
  lemma {:induction false} PiecesPrefixForm(acc: seq<string>, parts: seq<string>, isName: bool,
                                            rules: seq<Rule>, gc: GrammaticalCase, j: nat, k: nat)
    requires |acc| == SlotCount(gc) && j < |parts| && k < |acc|
    requires Titled(acc[k]) && EndsOpen(acc[k])
    ensures var r := PiecesUpTo(acc, parts, isName, rules, gc, j)[k];
            && r == acc[k] + Terminated(Forms(parts, isName, rules, SlotCase(gc, k))[..j], "-")
            && Titled(r) && EndsOpen(r)
  {
    if j == 0 {
      assert Forms(parts, isName, rules, SlotCase(gc, k))[..0] == [];
      assert PiecesUpTo(acc, parts, isName, rules, gc, j)[k] == acc[k];
    } else {
      PiecesPrefixForm(acc, parts, isName, rules, gc, j - 1, k);
      PiecesPrefixStep(acc, parts, isName, rules, gc, j, k);
    }
  }

  /** One non-last part more on top of the first `j - 1`. */
  lemma PiecesPrefixStep(acc: seq<string>, parts: seq<string>, isName: bool,
                         rules: seq<Rule>, gc: GrammaticalCase, j: nat, k: nat)
    requires |acc| == SlotCount(gc) && 0 < j < |parts| && k < |acc|
    requires var p := PiecesUpTo(acc, parts, isName, rules, gc, j - 1)[k];
             && p == acc[k] + Terminated(Forms(parts, isName, rules, SlotCase(gc, k))[..j - 1], "-")
             && Titled(p) && EndsOpen(p)
    ensures var r := PiecesUpTo(acc, parts, isName, rules, gc, j)[k];
            && r == acc[k] + Terminated(Forms(parts, isName, rules, SlotCase(gc, k))[..j], "-")
            && Titled(r) && EndsOpen(r)
  {
    var forms := Forms(parts, isName, rules, SlotCase(gc, k));
    var prevs := PiecesUpTo(acc, parts, isName, rules, gc, j - 1);
    var pre := Terminated(forms[..j - 1], "-");
    var f := forms[j - 1];
    PieceStepForm(prevs, parts[j - 1], isName, false, rules, gc, k);
    TerminatedSnoc(forms, j, "-");
    SeqAssoc(acc[k], pre, f);
    SeqAssoc(acc[k], pre + f, "-");
    EndsOpenAfterSeparator(prevs[k] + f, '-');
  }

  lemma TerminatedSnoc(xs: seq<string>, j: nat, sep: string)
    requires 0 < j <= |xs|
    ensures Terminated(xs[..j], sep) == Terminated(xs[..j - 1], sep) + xs[j - 1] + sep
  {
    assert xs[..j][..j - 1] == xs[..j - 1];
  }

  /** After all parts, an accumulator that was title-cased and ended at a
      word boundary holds the part forms joined by hyphens, and is still
      title-cased. */
  lemma PiecesUpToForm(acc: seq<string>, parts: seq<string>, isName: bool,
                       rules: seq<Rule>, gc: GrammaticalCase, k: nat)
    requires |acc| == SlotCount(gc) && k < |acc|
    requires Titled(acc[k]) && EndsOpen(acc[k])
    ensures var r := PiecesUpTo(acc, parts, isName, rules, gc, |parts|)[k];
            && r == acc[k] + JoinWith("-", Forms(parts, isName, rules, SlotCase(gc, k)))
            && Titled(r)
  {
    var n := |parts|;
    if n == 0 {
      assert Forms(parts, isName, rules, SlotCase(gc, k)) == [];
      assert acc[k] + [] == acc[k];
    } else {
      PiecesPrefixForm(acc, parts, isName, rules, gc, n - 1, k);
      PiecesLastForm(acc, parts, isName, rules, gc, k);
    }
  }

  /** The last part on top of all the others. */
  lemma PiecesLastForm(acc: seq<string>, parts: seq<string>, isName: bool,
                       rules: seq<Rule>, gc: GrammaticalCase, k: nat)
    requires |acc| == SlotCount(gc) && 0 < |parts| && k < |acc|
    requires var p := PiecesUpTo(acc, parts, isName, rules, gc, |parts| - 1)[k];
             && p == acc[k] + Terminated(Forms(parts, isName, rules, SlotCase(gc, k))[..|parts| - 1], "-")
             && Titled(p) && EndsOpen(p)
    ensures var r := PiecesUpTo(acc, parts, isName, rules, gc, |parts|)[k];
            && r == acc[k] + JoinWith("-", Forms(parts, isName, rules, SlotCase(gc, k)))
            && Titled(r)
  {
    var forms := Forms(parts, isName, rules, SlotCase(gc, k));
    var n := |parts|;
    var prevs := PiecesUpTo(acc, parts, isName, rules, gc, n - 1);
    var pre := Terminated(forms[..n - 1], "-");
    PieceStepForm(prevs, parts[n - 1], isName, true, rules, gc, k);
    JoinAsTerminated("-", forms);
    SeqAssoc(acc[k], pre, forms[n - 1]);
  }

  /** One word slot on an accumulator whose line 0 decides the separating
      space: the line gains a space (when line 0 is non-empty) and the word's
      form. */
  lemma WordStepForm(acc: seq<string>, word: string, t: Tables, gc: GrammaticalCase, k: nat)
    requires |acc| == SlotCount(gc) && k < |acc|
    requires Titled(acc[k])
    requires acc[0] == [] ==> acc[k] == []
    ensures WordStep(acc, word, t, gc)[k]
         == acc[k] + (if acc[0] != [] then " " else []) + WordForm(word, t, SlotCase(gc, k))
    ensures Titled(WordStep(acc, word, t, gc)[k])
  {
    var parts := LowerParts(word);
    var isName := IsNameWord(parts, t.names);
    var spaced := if acc[0] != [] then AppendEach(acc, " ") else acc;
    if acc[0] != [] {
      TitledAppendNonLetters(acc[k], " ");
    }
    PiecesUpToForm(spaced, parts, isName, if isName then t.nameRules else t.surnameRules, gc, k);
  }

  /** Some of the first `i` strings is non-empty. */
  predicate AnyNonEmpty(xs: seq<string>, i: nat)
    requires i <= |xs|
  {
    exists q :: 0 <= q < i && xs[q] != []
  }

  /** A line built from per-word forms `fs`: each form is preceded by one
      space whenever some earlier form of line 0 (`lead`) is non-empty. */
  function SpacedJoin(fs: seq<string>, lead: seq<string>, i: nat): string
    requires i <= |fs| && i <= |lead|
  {
    if i == 0 then []
    else SpacedJoin(fs, lead, i - 1) + (if AnyNonEmpty(lead, i - 1) then " " else []) + fs[i - 1]
  }

  /** The forms of a list of words, in case `c`. */
  function WordForms(words: seq<string>, t: Tables, c: GrammaticalCase): (r: seq<string>)
    ensures |r| == |words|
  {
    if words == [] then [] else [WordForm(words[0], t, c)] + WordForms(words[1..], t, c)
  }

  /** Entry `i` of the forms is the form of word `i`. */
  lemma {:induction false} WordFormsAt(words: seq<string>, t: Tables, c: GrammaticalCase, i: nat)
    requires i < |words|
    ensures WordForms(words, t, c)[i] == WordForm(words[i], t, c)
  {
    if i > 0 {
      WordFormsAt(words[1..], t, c, i - 1);
    }
  }

  lemma WordFormsEach(words: seq<string>, t: Tables, c: GrammaticalCase)
    ensures forall i :: 0 <= i < |words| ==> WordForms(words, t, c)[i] == WordForm(words[i], t, c)
  {
    forall i | 0 <= i < |words|
      ensures WordForms(words, t, c)[i] == WordForm(words[i], t, c)
    {
      WordFormsAt(words, t, c, i);
    }
  }

  /** A word whose form in the case of line 0 is empty has empty forms in
      every case. */
  predicate FormsAligned(words: seq<string>, t: Tables, gc: GrammaticalCase) {
    forall k {:trigger WordForms(words, t, SlotCase(gc, k))} :: 0 <= k < SlotCount(gc) ==>
      Aligned(WordForms(words, t, SlotCase(gc, 0)), WordForms(words, t, SlotCase(gc, k)))
  }

  /** `fs` is empty wherever `lead` is. */
  predicate Aligned(lead: seq<string>, fs: seq<string>) {
    forall q :: 0 <= q < |lead| && q < |fs| && lead[q] == [] ==> fs[q] == []
  }

  /** While every form so far is empty, so is the line. */
  lemma {:induction false} SpacedJoinAllEmpty(fs: seq<string>, lead: seq<string>, i: nat)
    requires i <= |fs| && i <= |lead|
    requires forall q :: 0 <= q < i ==> fs[q] == [] && lead[q] == []
    ensures SpacedJoin(fs, lead, i) == [] && !AnyNonEmpty(lead, i)
  {
    if i > 0 {
      SpacedJoinAllEmpty(fs, lead, i - 1);
    }
  }

  /** The accumulators before each word slot up to slot `n`, in order. */
  function Trace(words: seq<string>, t: Tables, gc: GrammaticalCase, n: nat): (r: seq<seq<string>>)
    requires n <= |words|
    ensures |r| == n + 1
  {
    if n == 0 then [LinesUpTo(words, t, gc, 0)]
    else Trace(words, t, gc, n - 1) + [LinesUpTo(words, t, gc, n)]
  }

  /** Entry `j` of the trace of `n` word slots is the accumulators before word slot `j`. */
  predicate TraceEntry(words: seq<string>, t: Tables, gc: GrammaticalCase, n: nat, j: nat)
    requires j <= n <= |words|
  {
    Trace(words, t, gc, n)[j] == LinesUpTo(words, t, gc, j)
  }

  lemma {:induction false} TraceAt(words: seq<string>, t: Tables, gc: GrammaticalCase, n: nat, j: nat)
    requires j <= n <= |words|
    ensures TraceEntry(words, t, gc, n, j)
  {
    if j < n {
      TraceAt(words, t, gc, n - 1, j);
    }
  }

  /** One word slot takes line `k` of `prev` to line `k` of `next` by adding
      the form `f`, after a space when line 0 is non-empty, and keeps it
      title-cased, provided line `k` is title-cased and empty along with line 0. */
  predicate SlotStepped(prev: seq<string>, next: seq<string>, f: string, k: nat) {
    && k < |prev| && k < |next|
    && (Titled(prev[k]) && (prev[0] == [] ==> prev[k] == []) ==>
          next[k] == prev[k] + (if prev[0] != [] then " " else []) + f && Titled(next[k]))
  }

  /** Step `j` of a trace moves line `k` and line 0 on by their forms. */
  predicate TraceStep(L: seq<seq<string>>, fs: seq<string>, lead: seq<string>, k: nat, j: nat)
    requires j + 1 < |L| && j < |fs| && j < |lead|
  {
    SlotStepped(L[j], L[j + 1], fs[j], k) && SlotStepped(L[j], L[j + 1], lead[j], 0)
  }

  /** The line invariant along a trace of accumulators whose every step adds
      one form per line. */
  lemma {:induction false} TraceLines(L: seq<seq<string>>, fs: seq<string>, lead: seq<string>, k: nat, i: nat)
    requires i < |L| && |L| - 1 <= |fs| == |lead| && Aligned(lead, fs)
    requires k < |L[0]| && L[0][k] == [] && L[0][0] == []
    requires forall j :: 0 <= j < |L| - 1 ==> TraceStep(L, fs, lead, k, j)
    ensures k < |L[i]|
    ensures L[i][k] == SpacedJoin(fs, lead, i) && Titled(L[i][k])
    ensures L[i][0] == SpacedJoin(lead, lead, i) && Titled(L[i][0])
  {
    if i > 0 {
      TraceLines(L, fs, lead, k, i - 1);
      var prev := L[i - 1];
      var next := L[i];
      assert TraceStep(L, fs, lead, k, i - 1);
      EmptyLinesTogether(prev, fs, lead, i - 1, k);
      SpacedJoinStep(prev, next, fs, lead, i, k);
      SpacedJoinStep(prev, next, lead, lead, i, 0);
    }
  }

  /** Word slot `j` steps every line by its form. */
  lemma LineStep(words: seq<string>, t: Tables, gc: GrammaticalCase, j: nat, k: nat)
    requires j < |words| && k < SlotCount(gc)
    ensures SlotStepped(LinesUpTo(words, t, gc, j), LinesUpTo(words, t, gc, j + 1),
                        WordForms(words, t, SlotCase(gc, k))[j], k)
  {
    var prev := LinesUpTo(words, t, gc, j);
    if Titled(prev[k]) && (prev[0] == [] ==> prev[k] == []) {
      LineAfterSlot(words, t, gc, j, k);
    }
  }

  /** The same step, read on the trace. */
  lemma TraceLineStep(words: seq<string>, t: Tables, gc: GrammaticalCase, n: nat, j: nat, k: nat, f: string,
                      L: seq<seq<string>>)
    requires j < n <= |words| && k < SlotCount(gc)
    requires f == WordForms(words, t, SlotCase(gc, k))[j] && L == Trace(words, t, gc, n)
    ensures SlotStepped(L[j], L[j + 1], f, k)
  {
    TraceAt(words, t, gc, n, j);
    TraceAt(words, t, gc, n, j + 1);
    LineStep(words, t, gc, j, k);
  }

  /** Step `j` of the trace of the first `n` word slots. */
  lemma TraceStepAt(words: seq<string>, t: Tables, gc: GrammaticalCase, n: nat, j: nat, k: nat,
                    fs: seq<string>, lead: seq<string>)
    requires j < n <= |words| && k < SlotCount(gc)
    requires fs == WordForms(words, t, SlotCase(gc, k)) && lead == WordForms(words, t, SlotCase(gc, 0))
    ensures TraceStep(Trace(words, t, gc, n), fs, lead, k, j)
  {
    var L := Trace(words, t, gc, n);
    TraceLineStep(words, t, gc, n, j, k, fs[j], L);
    TraceLineStep(words, t, gc, n, j, 0, lead[j], L);
  }

  /** Line `k` after `i` word slots is the spaced join of the forms of its
      case, and is title-cased. */
  lemma LinesUpToLine(words: seq<string>, t: Tables, gc: GrammaticalCase, i: nat, k: nat)
    requires i <= |words| && FormsAligned(words, t, gc) && k < SlotCount(gc)
    ensures LinesUpTo(words, t, gc, i)[k]
         == SpacedJoin(WordForms(words, t, SlotCase(gc, k)), WordForms(words, t, SlotCase(gc, 0)), i)
    ensures Titled(LinesUpTo(words, t, gc, i)[k])
  {
    var L := Trace(words, t, gc, i);
    var fs := WordForms(words, t, SlotCase(gc, k));
    var lead := WordForms(words, t, SlotCase(gc, 0));
    forall j | 0 <= j < |L| - 1
      ensures TraceStep(L, fs, lead, k, j)
    {
      TraceStepAt(words, t, gc, i, j, k, fs, lead);
    }
    TraceAt(words, t, gc, i, 0);
    TraceAt(words, t, gc, i, i);
    TraceLines(L, fs, lead, k, i);
  }

  /** Line `k` is empty whenever line 0 is, and line 0 is empty exactly while
      all of its forms are. */
  lemma EmptyLinesTogether(prev: seq<string>, fs: seq<string>, lead: seq<string>, i: nat, k: nat)
    requires i <= |fs| == |lead| && k < |prev| && 0 < |prev|
    requires Aligned(lead, fs)
    requires prev[k] == SpacedJoin(fs, lead, i) && prev[0] == SpacedJoin(lead, lead, i)
    ensures prev[0] == [] <==> !AnyNonEmpty(lead, i)
    ensures prev[0] == [] ==> prev[k] == []
  {
    LeadJoinEmpty(lead, i);
    EmptyLeadEmptyLine(fs, lead, i);
  }

  /** Word slot `i - 1` adds its form to line `k`, after a space when line 0
      is non-empty. */
  lemma LineAfterSlot(words: seq<string>, t: Tables, gc: GrammaticalCase, j: nat, k: nat)
    requires j < |words| && k < SlotCount(gc)
    requires var prev := LinesUpTo(words, t, gc, j);
             Titled(prev[k]) && (prev[0] == [] ==> prev[k] == [])
    ensures var prev := LinesUpTo(words, t, gc, j);
            && LinesUpTo(words, t, gc, j + 1)[k]
               == prev[k] + (if prev[0] != [] then " " else []) + WordForms(words, t, SlotCase(gc, k))[j]
            && Titled(LinesUpTo(words, t, gc, j + 1)[k])
  {
    LinesUpToStep(words, t, gc, j);
    WordStepForm(LinesUpTo(words, t, gc, j), words[j], t, gc, k);
    WordFormsAt(words, t, SlotCase(gc, k), j);
  }

  /** Line 0 is empty exactly while all of its forms so far are empty. */
  lemma {:induction false} LeadJoinEmpty(lead: seq<string>, i: nat)
    requires i <= |lead|
    ensures SpacedJoin(lead, lead, i) == [] <==> !AnyNonEmpty(lead, i)
  {
    if i > 0 {
      LeadJoinEmpty(lead, i - 1);
      AnyNonEmptySnoc(lead, i);
    }
  }

  /** The step of `LineStep` on the lines and forms alone. */
  lemma SpacedJoinStep(prev: seq<string>, next: seq<string>, fs: seq<string>, lead: seq<string>, i: nat, k: nat)
    requires 0 < i <= |fs| == |lead| && k < |prev| && k < |next|
    requires prev[k] == SpacedJoin(fs, lead, i - 1)
    requires prev[0] == [] <==> !AnyNonEmpty(lead, i - 1)
    requires next[k] == prev[k] + (if prev[0] != [] then " " else []) + fs[i - 1]
    ensures next[k] == SpacedJoin(fs, lead, i)
  {
  }

  /** While line 0 has had only empty forms, every line is empty. */
  lemma EmptyLeadEmptyLine(fs: seq<string>, lead: seq<string>, i: nat)
    requires i <= |fs| == |lead|
    requires Aligned(lead, fs)
    ensures !AnyNonEmpty(lead, i) ==> SpacedJoin(fs, lead, i) == []
  {
    if !AnyNonEmpty(lead, i) {
      SpacedJoinAllEmpty(fs, lead, i);
    }
  }

  lemma AnyNonEmptySnoc(xs: seq<string>, i: nat)
    requires 0 < i <= |xs|
    ensures AnyNonEmpty(xs, i) <==> AnyNonEmpty(xs, i - 1) || xs[i - 1] != []
  {
    if AnyNonEmpty(xs, i) {
      var q :| 0 <= q < i && xs[q] != [];
      if q < i - 1 {
        assert AnyNonEmpty(xs, i - 1);
      }
    }
  }

  function Spaces(n: nat): (r: string)
    ensures |r| == n && forall q :: 0 <= q < n ==> r[q] == ' '
  {
    seq(n, _ => ' ')
  }

  /** When the first form of line 0 is non-empty, every later form is
      preceded by one space, so the line is its forms joined by single spaces
      (an empty form leaves its space behind). */
  lemma {:induction false} SpacedJoinFilled(fs: seq<string>, lead: seq<string>, i: nat)
    requires 1 <= i <= |fs| && i <= |lead|
    requires lead[0] != []
    ensures SpacedJoin(fs, lead, i) == JoinWith(" ", fs[..i])
  {
    if i == 1 {
      assert !AnyNonEmpty(lead, 0);
      assert fs[..1] == [fs[0]];
    } else {
      SpacedJoinFilled(fs, lead, i - 1);
      assert AnyNonEmpty(lead, i - 1) by { assert lead[0] != []; }
      assert fs[..i] == fs[..i - 1] + [fs[i - 1]];
      JoinWithSnoc(" ", fs[..i - 1], fs[i - 1]);
    }
  }

  /** Empty forms after `n` non-empty ones each leave one space behind. */
  lemma {:induction false} SpacedJoinTrailing(fs: seq<string>, lead: seq<string>, n: nat, i: nat)
    requires 1 <= n <= i <= |fs| && i <= |lead|
    requires lead[0] != []
    requires forall q :: n <= q < i ==> fs[q] == []
    ensures SpacedJoin(fs, lead, i) == JoinWith(" ", fs[..n]) + Spaces(i - n)
  {
    if i == n {
      SpacedJoinFilled(fs, lead, n);
      assert Spaces(0) == [];
    } else {
      SpacedJoinTrailing(fs, lead, n, i - 1);
      assert AnyNonEmpty(lead, i - 1) by { assert lead[0] != []; }
      assert Spaces(i - n) == Spaces(i - 1 - n) + " ";
    }
  }

  /** The intended line for case `c`: the word forms joined by single spaces. */
  function Phrase(words: seq<string>, t: Tables, c: GrammaticalCase): string {
    JoinWith(" ", WordForms(words, t, c))
  }

  /** An empty last word adds only its separating space to a phrase. */
  lemma PhraseWithEmptyWord(words: seq<string>, t: Tables, c: GrammaticalCase)
    requires words != []
    ensures Phrase(words + [[]], t, c) == Phrase(words, t, c) + " "
  {
    var fs := WordForms(words, t, c);
    var gs := WordForms(words + [[]], t, c);
    WordFormsEach(words, t, c);
    WordFormsEach(words + [[]], t, c);
    EmptyWordForm(t, c);
    assert gs == fs + [[]];
    JoinWithSnoc(" ", fs, []);
    assert Phrase(words, t, c) + " " + [] == Phrase(words, t, c) + " ";
  }

  /** No rule of `rules` makes a part vanish: a rule that strips a non-empty
      ending puts a non-empty ending back in every case. */
  predicate Declinable(rules: seq<Rule>) {
    forall j, c :: 0 <= j < |rules| && c in CaseKeys ==> rules[j].ending == [] || CaseEnding(rules[j], c) != []
  }

  /** Every declension rule list of the configuration is declinable. */
  predicate NoVanishingForms(cfg: Config) {
    && Declinable(cfg.maleNameRules) && Declinable(cfg.maleSurnameRules)
    && Declinable(cfg.femaleNameRules) && Declinable(cfg.femaleSurnameRules)
  }

  lemma {:induction false} JoinOfTwoOrMoreNonEmpty(sep: string, parts: seq<string>)
    requires |parts| >= 2 && sep != []
    ensures JoinWith(sep, parts) != []
  {
    assert |JoinWith(sep, parts)| >= |sep|;
  }

  /** A non-empty word never declines to nothing under declinable rules. */
  lemma WordFormNonEmpty(word: string, t: Tables, c: GrammaticalCase)
    requires word != [] && c in CaseKeys
    requires Declinable(t.nameRules) && Declinable(t.surnameRules)
    ensures WordForm(word, t, c) != []
  {
    var parts := LowerParts(word);
    var isName := IsNameWord(parts, t.names);
    var rules := if isName then t.nameRules else t.surnameRules;
    var forms := Forms(parts, isName, rules, c);
    if |parts| >= 2 {
      JoinOfTwoOrMoreNonEmpty("-", forms);
    } else {
      assert |parts| == 1;
      SingleHyphenPiece(word, MaxWords);
      var part := parts[0];
      LowerPartsAt(word, 0);
      assert |part| == |word|;
      assert forms[0] == DeclinedForm(part, rules, c);
      match FirstMatch(part, rules)
      case Some(i) => {
        assert |forms[0]| == |part| - |rules[i].ending| + |CaseEnding(rules[i], c)|;
      }
      case None => {
      }
    }
  }

  /** A text whose first character is not white space, such as every phrase
      the request reader builds (a token, then a space, and so on). */
  predicate StartsWithWord(input: string) {
    input != [] && !IsSpace(input[0])
  }

  /** The word forms of the ten slots: the forms of the fields, then empty
      forms for the empty slots, in every case. */
  lemma SlotForms(input: string, t: Tables, c: GrammaticalCase)
    ensures var n := |SplitWords(input)|;
            var fs := WordForms(Slots(input), t, c);
            && fs[..n] == WordForms(SplitWords(input), t, c)
            && forall q :: n <= q < MaxWords ==> fs[q] == []
  {
    var n := |SplitWords(input)|;
    EmptyWordForm(t, c);
    WordFormsEach(Slots(input), t, c);
    WordFormsEach(SplitWords(input), t, c);
    assert forall q :: 0 <= q < n ==> Slots(input)[q] == SplitWords(input)[q] by {
      assert Slots(input)[..n] == SplitWords(input);
    }
  }

  lemma EmptyWordForm(t: Tables, c: GrammaticalCase)
    ensures WordForm([], t, c) == []
  {
    assert LowerParts([]) == [];
  }

  /** Under declinable tables, the first field of a text that starts with a
      word has a non-empty form on line 0. */
  lemma LeadFormOfFields(input: string, t: Tables, gc: GrammaticalCase)
    requires StartsWithWord(input) && Declinable(t.nameRules) && Declinable(t.surnameRules)
    ensures 1 <= |SplitWords(input)|
    ensures WordForm(SplitWords(input)[0], t, SlotCase(gc, 0)) != []
  {
    FirstFieldNonEmpty(input, MaxWords);
    WordFormNonEmpty(SplitWords(input)[0], t, SlotCase(gc, 0));
  }

  /** Under declinable tables the forms of any words are aligned: an empty
      word has empty forms in every case, and a non-empty word has a
      non-empty form on line 0. */
  lemma WordsAligned(words: seq<string>, t: Tables, gc: GrammaticalCase)
    requires Declinable(t.nameRules) && Declinable(t.surnameRules)
    ensures FormsAligned(words, t, gc)
  {
    var lead := WordForms(words, t, SlotCase(gc, 0));
    WordFormsEach(words, t, SlotCase(gc, 0));
    forall k | 0 <= k < SlotCount(gc)
      ensures Aligned(lead, WordForms(words, t, SlotCase(gc, k)))
    {
      var fs := WordForms(words, t, SlotCase(gc, k));
      WordFormsEach(words, t, SlotCase(gc, k));
      forall q | 0 <= q < |lead| && lead[q] == []
        ensures fs[q] == []
      {
        if words[q] == [] {
          EmptyWordForm(t, SlotCase(gc, k));
        } else {
          WordFormNonEmpty(words[q], t, SlotCase(gc, 0));
        }
      }
    }
  }

  /** The ten slots of the engine's word loop: each line is the phrase of its
      case followed by one space per empty slot. */
  lemma LinesOfSlots(input: string, t: Tables, gc: GrammaticalCase)
    requires StartsWithWord(input) && Declinable(t.nameRules) && Declinable(t.surnameRules)
    ensures var words := SplitWords(input);
            var lines := LinesUpTo(Slots(input), t, gc, MaxWords);
            forall k :: 0 <= k < |lines| ==>
              lines[k] == Phrase(words, t, SlotCase(gc, k)) + Spaces(MaxWords - |words|)
  {
    var slots := Slots(input);
    WordsAligned(slots, t, gc);
    var lines := LinesUpTo(slots, t, gc, MaxWords);
    forall k | 0 <= k < |lines|
      ensures lines[k] == Phrase(SplitWords(input), t, SlotCase(gc, k)) + Spaces(MaxWords - |SplitWords(input)|)
    {
      LinesUpToLine(slots, t, gc, MaxWords, k);
      SlotLine(input, t, gc, k);
    }
  }

  /** Line `k` over the ten slots, as a spaced join, is the phrase of its case
      followed by one space per empty slot. */
  lemma SlotLine(input: string, t: Tables, gc: GrammaticalCase, k: nat)
    requires StartsWithWord(input) && Declinable(t.nameRules) && Declinable(t.surnameRules)
    requires k < SlotCount(gc)
    ensures var slots := Slots(input);
            var words := SplitWords(input);
            SpacedJoin(WordForms(slots, t, SlotCase(gc, k)), WordForms(slots, t, SlotCase(gc, 0)), MaxWords)
              == Phrase(words, t, SlotCase(gc, k)) + Spaces(MaxWords - |words|)
  {
    var slots := Slots(input);
    var n := |SplitWords(input)|;
    var lead := WordForms(slots, t, SlotCase(gc, 0));
    LeadFormOfFields(input, t, gc);
    SlotForms(input, t, SlotCase(gc, 0));
    WordFormsEach(SplitWords(input), t, SlotCase(gc, 0));
    assert lead[0] == lead[..n][0];
    SlotForms(input, t, SlotCase(gc, k));
    SpacedJoinTrailing(WordForms(slots, t, SlotCase(gc, k)), WordForms(slots, t, SlotCase(gc, 0)), n, MaxWords);
  }

  /** The filled slots only: each line is the phrase of its case. */
  lemma LinesOfFields(input: string, t: Tables, gc: GrammaticalCase)
    requires StartsWithWord(input) && Declinable(t.nameRules) && Declinable(t.surnameRules)
    ensures var words := SplitWords(input);
            var lines := LinesUpTo(words, t, gc, |words|);
            forall k :: 0 <= k < |lines| ==> lines[k] == Phrase(words, t, SlotCase(gc, k))
  {
    var words := SplitWords(input);
    WordsAligned(words, t, gc);
    var lines := LinesUpTo(words, t, gc, |words|);
    forall k | 0 <= k < |lines|
      ensures lines[k] == Phrase(words, t, SlotCase(gc, k))
    {
      LinesUpToLine(words, t, gc, |words|, k);
      FieldLine(input, t, gc, k);
    }
  }

  /** Line `k` over the fields, as a spaced join, is the phrase of its case. */
  lemma FieldLine(input: string, t: Tables, gc: GrammaticalCase, k: nat)
    requires StartsWithWord(input) && Declinable(t.nameRules) && Declinable(t.surnameRules)
    requires k < SlotCount(gc)
    ensures var words := SplitWords(input);
            SpacedJoin(WordForms(words, t, SlotCase(gc, k)), WordForms(words, t, SlotCase(gc, 0)), |words|)
              == Phrase(words, t, SlotCase(gc, k))
  {
    var words := SplitWords(input);
    var fs := WordForms(words, t, SlotCase(gc, k));
    LeadFormOfFields(input, t, gc);
    WordFormsEach(words, t, SlotCase(gc, 0));
    SpacedJoinFilled(fs, WordForms(words, t, SlotCase(gc, 0)), |words|);
    assert fs[..|words|] == fs;
  }

  /** As written, every line of the answer ends with one space for each of
      the ten word slots the input leaves empty. */
  lemma TrailingSpacesAsWritten(input: string, given: Sex, gc: GrammaticalCase, cfg: Config)
    requires StartsWithWord(input) && NoVanishingForms(cfg)
    ensures var words := SplitWords(input);
            var t := TablesFor(cfg, SexOf(input, given, cfg));
            var lines := CaseLines(input, given, gc, cfg);
            forall k :: 0 <= k < |lines| ==>
              lines[k] == Phrase(words, t, SlotCase(gc, k)) + Spaces(MaxWords - |words|)
  {
    LinesOfSlots(input, TablesFor(cfg, SexOf(input, given, cfg)), gc);
  }

  /** With the word loop bounded by the number of fields, every line is the
      word forms of its case joined by single spaces. */
  lemma FilledLinesArePhrases(input: string, given: Sex, gc: GrammaticalCase, cfg: Config)
    requires StartsWithWord(input) && NoVanishingForms(cfg)
    ensures var words := SplitWords(input);
            var t := TablesFor(cfg, SexOf(input, given, cfg));
            var lines := FilledCaseLines(input, given, gc, cfg);
            forall k :: 0 <= k < |lines| ==> lines[k] == Phrase(words, t, SlotCase(gc, k))
  {
    LinesOfFields(input, TablesFor(cfg, SexOf(input, given, cfg)), gc);
  }
}
