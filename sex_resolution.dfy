/** Sex recognition at the start of `InflectStringUTF16` (inflections.cpp):
    when the caller does not give the sex, the name lists are searched first,
    then the female-only surname endings, and male is the default. */
module SexResolution {
  import opened Types
  import opened Casing
  import opened Splitting
  import opened Rules

  /** Each of `p` lower-cased. */
  function LowerAll(p: seq<string>): (r: seq<string>)
    ensures |r| == |p|
  {
    if p == [] then [] else [ToLower(p[0])] + LowerAll(p[1..])
  }

  lemma {:induction false} LowerAllAt(p: seq<string>, j: nat)
    requires j < |p|
    ensures LowerAll(p)[j] == ToLower(p[j])
  {
    if j > 0 {
      LowerAllAt(p[1..], j - 1);
    }
  }

  /** The lower-cased hyphen parts of one word. */
  function LowerParts(word: string): (r: seq<string>)
    ensures |r| == |SplitHyphens(word)|
  {
    LowerAll(SplitHyphens(word))
  }

  /** Part `j` of a word, lower-cased. */
  lemma LowerPartsAt(word: string, j: nat)
    requires j < |SplitHyphens(word)|
    ensures LowerParts(word)[j] == ToLower(SplitHyphens(word)[j])
  {
    LowerAllAt(SplitHyphens(word), j);
  }

  /** The lower-cased hyphen parts of all the words, in word order. */
  function AllParts(words: seq<string>): seq<string> {
    if words == [] then []
    else AllParts(words[..|words| - 1]) + LowerParts(words[|words| - 1])
  }

  /** The sex of the first part that is in a name list; for each part the male
      list is asked before the female list. */
  function NameListSex(parts: seq<string>, maleNames: set<string>, femaleNames: set<string>): Sex {
    if parts == [] then Unknown
    else if parts[0] in maleNames then Male
    else if parts[0] in femaleNames then Female
    else NameListSex(parts[1..], maleNames, femaleNames)
  }

  /** Some part ends with the ending of some female-only surname rule. */
  predicate HasFemaleOnlyEnding(parts: seq<string>, femaleOnlyRules: seq<Rule>) {
    exists i :: 0 <= i < |parts| && FirstMatch(parts[i], femaleOnlyRules).Some?
  }

  /** The sex the engine declines with. */
  function ResolvedSex(words: seq<string>, given: Sex, maleNames: set<string>,
                       femaleNames: set<string>, femaleOnlyRules: seq<Rule>): (r: Sex)
    ensures r != Unknown
    ensures given != Unknown ==> r == given
  {
    if given != Unknown then given
    else
      var parts := AllParts(words);
      var byName := NameListSex(parts, maleNames, femaleNames);
      if byName != Unknown then byName
      else if HasFemaleOnlyEnding(parts, femaleOnlyRules) then Female
      else Male
  }

  /** `parts[i]` is the first part found in either name list. */
  predicate FirstListed(parts: seq<string>, i: nat, maleNames: set<string>, femaleNames: set<string>) {
    && i < |parts|
    && (parts[i] in maleNames || parts[i] in femaleNames)
    && forall j :: 0 <= j < i ==> parts[j] !in maleNames && parts[j] !in femaleNames
  }

  /** The first listed part decides, male list first. */
  lemma {:induction false} NameListSexOfFirstListed(parts: seq<string>, i: nat, maleNames: set<string>, femaleNames: set<string>)
    requires FirstListed(parts, i, maleNames, femaleNames)
    ensures NameListSex(parts, maleNames, femaleNames) == if parts[i] in maleNames then Male else Female
  {
    if i > 0 {
      assert parts[0] !in maleNames && parts[0] !in femaleNames;
      NameListSexOfFirstListed(parts[1..], i - 1, maleNames, femaleNames);
    }
  }

  /** No decision from the name lists exactly when no part is in either list. */
  lemma {:induction false} NameListSexUnknown(parts: seq<string>, maleNames: set<string>, femaleNames: set<string>)
    ensures NameListSex(parts, maleNames, femaleNames) == Unknown <==>
            forall i :: 0 <= i < |parts| ==> parts[i] !in maleNames && parts[i] !in femaleNames
  {
    if parts != [] {
      NameListSexUnknown(parts[1..], maleNames, femaleNames);
      assert forall i :: 1 <= i < |parts| ==> parts[i] == parts[1..][i - 1];
    }
  }

  lemma {:induction false} NameListSexAppend(a: seq<string>, b: seq<string>, maleNames: set<string>, femaleNames: set<string>)
    ensures NameListSex(a + b, maleNames, femaleNames) ==
            if NameListSex(a, maleNames, femaleNames) != Unknown then NameListSex(a, maleNames, femaleNames)
            else NameListSex(b, maleNames, femaleNames)
  {
    if a != [] {
      assert (a + b)[0] == a[0];
      assert (a + b)[1..] == a[1..] + b;
      NameListSexAppend(a[1..], b, maleNames, femaleNames);
    } else {
      assert a + b == b;
    }
  }

  lemma AllPartsStep(words: seq<string>, i: nat)
    requires i < |words|
    ensures AllParts(words[..i + 1]) == AllParts(words[..i]) + LowerParts(words[i])
  {
    assert words[..i + 1][..i] == words[..i];
  }

  /** The parts of two runs of words are the parts of the first run, then
      those of the second. */
  lemma {:induction false} AllPartsAppend(a: seq<string>, b: seq<string>)
    ensures AllParts(a + b) == AllParts(a) + AllParts(b)
    decreases |b|
  {
    if b == [] {
      assert a + b == a;
    } else {
      var init := b[..|b| - 1];
      AllPartsAppend(a, init);
      assert (a + b)[..|a + b| - 1] == a + init;
      assert (a + b)[|a + b| - 1] == b[|b| - 1];
    }
  }

  /** The parts of the first `m` words are those of the first `i`, then those
      of the words in between. */
  lemma AllPartsSplit(words: seq<string>, i: nat, m: nat)
    requires i <= m <= |words|
    ensures AllParts(words[..m]) == AllParts(words[..i]) + AllParts(words[i..m])
  {
    AllPartsAppend(words[..i], words[i..m]);
    assert words[..m] == words[..i] + words[i..m];
  }

  lemma HasFemaleOnlyEndingSnoc(parts: seq<string>, j: nat, rules: seq<Rule>)
    requires j < |parts|
    ensures HasFemaleOnlyEnding(parts[..j + 1], rules) <==>
            HasFemaleOnlyEnding(parts[..j], rules) || FirstMatch(parts[j], rules).Some?
  {
    HasFemaleOnlyEndingAppend(parts[..j], [parts[j]], rules);
    assert parts[..j + 1] == parts[..j] + [parts[j]];
  }

  lemma HasFemaleOnlyEndingAppend(a: seq<string>, b: seq<string>, rules: seq<Rule>)
    ensures HasFemaleOnlyEnding(a + b, rules) <==> HasFemaleOnlyEnding(a, rules) || HasFemaleOnlyEnding(b, rules)
  {
    if HasFemaleOnlyEnding(a, rules) {
      var i :| 0 <= i < |a| && FirstMatch(a[i], rules).Some?;
      assert (a + b)[i] == a[i];
    }
    if HasFemaleOnlyEnding(b, rules) {
      var i :| 0 <= i < |b| && FirstMatch(b[i], rules).Some?;
      assert (a + b)[|a| + i] == b[i];
    }
    if HasFemaleOnlyEnding(a + b, rules) {
      var i :| 0 <= i < |a + b| && FirstMatch((a + b)[i], rules).Some?;
      if i >= |a| {
        assert b[i - |a|] == (a + b)[i];
      } else {
        assert a[i] == (a + b)[i];
      }
    }
  }

  /** The inner loop of the name-list pass for one word: lower-case its
      hyphen parts one by one and stop at the first found in the male list,
      then the female list. */
  method NameListInWord(word: string, maleNames: set<string>, femaleNames: set<string>)
    returns (s: Sex)
    ensures s == NameListSex(LowerParts(word), maleNames, femaleNames)
  {
    s := Unknown;
    var str := SplitHyphens(word);
    ghost var lowered := LowerParts(word);
    var num := |str|;
    var j := 0;
    while j < num
      invariant 0 <= j <= num && |str| == num
      invariant forall q :: j <= q < num ==> str[q] == SplitHyphens(word)[q]
      invariant s == Unknown
      invariant NameListSex(lowered[..j], maleNames, femaleNames) == Unknown
    {
      str := str[j := ToLower(str[j])];
      LowerPartsAt(word, j);
      NameListSexAppend(lowered[..j], lowered[j..j + 1], maleNames, femaleNames);
      assert lowered[..j + 1] == lowered[..j] + lowered[j..j + 1];
      assert str[j] == lowered[j];
      if str[j] in maleNames {
        s := Male;
        break;
      } else if str[j] in femaleNames {
        s := Female;
        break;
      }
      j := j + 1;
    }
    // the parts looked at: all of them, or up to and including the hit
    ghost var seen := if s == Unknown then j else j + 1;
    NameListSexAppend(lowered[..seen], lowered[seen..], maleNames, femaleNames);
    assert lowered == lowered[..seen] + lowered[seen..];
  }

  /** The name-list pass of `InflectStringUTF16`: words in order, hyphen parts
      in order, each lower-cased in place and looked up in the male list, then
      the female list; the first hit stops both loops. */
  method NameListPass(words: seq<string>, wordsNum: nat, maleNames: set<string>, femaleNames: set<string>)
    returns (s: Sex)
    requires wordsNum <= |words|
    ensures s == NameListSex(AllParts(words[..wordsNum]), maleNames, femaleNames)
  {
    s := Unknown;
    var i := 0;
    while s == Unknown && i < wordsNum
      invariant 0 <= i <= wordsNum
      invariant s == NameListSex(AllParts(words[..i]), maleNames, femaleNames)
    {
      ghost var lowered := LowerParts(words[i]);
      s := NameListInWord(words[i], maleNames, femaleNames);
      AllPartsStep(words, i);
      NameListSexAppend(AllParts(words[..i]), lowered, maleNames, femaleNames);
      i := i + 1;
    }
    AllPartsSplit(words, i, wordsNum);
    NameListSexAppend(AllParts(words[..i]), AllParts(words[i..wordsNum]), maleNames, femaleNames);
  }

  /** The inner loop of the female-ending pass for one word: lower-case its
      hyphen parts one by one and stop at the first with a female-only ending. */
  method FemaleEndingInWord(word: string, femaleOnlyRules: seq<Rule>) returns (s: Sex)
    ensures s == (if HasFemaleOnlyEnding(LowerParts(word), femaleOnlyRules) then Female else Unknown)
  {
    s := Unknown;
    var str := SplitHyphens(word);
    ghost var lowered := LowerParts(word);
    var num := |str|;
    var j := 0;
    while s == Unknown && j < num
      invariant 0 <= j <= num && |str| == num
      invariant forall q :: j <= q < num ==> str[q] == SplitHyphens(word)[q]
      invariant s == (if HasFemaleOnlyEnding(lowered[..j], femaleOnlyRules) then Female else Unknown)
    {
      str := str[j := ToLower(str[j])];
      LowerPartsAt(word, j);
      var m := FindRule(str[j], femaleOnlyRules);
      if m.Some? {
        s := Female;
      }
      HasFemaleOnlyEndingSnoc(lowered, j, femaleOnlyRules);
      j := j + 1;
    }
    HasFemaleOnlyEndingAppend(lowered[..j], lowered[j..], femaleOnlyRules);
    assert lowered == lowered[..j] + lowered[j..];
  }

  /** The female-ending pass: words and hyphen parts in order, each
      lower-cased in place and matched against the female-only surname rules;
      the first part that ends with one of their endings gives female. */
  method FemaleEndingPass(words: seq<string>, wordsNum: nat, femaleOnlyRules: seq<Rule>)
    returns (s: Sex)
    requires wordsNum <= |words|
    ensures s == (if HasFemaleOnlyEnding(AllParts(words[..wordsNum]), femaleOnlyRules) then Female else Unknown)
  {
    s := Unknown;
    var i := 0;
    while s == Unknown && i < wordsNum
      invariant 0 <= i <= wordsNum
      invariant s == (if HasFemaleOnlyEnding(AllParts(words[..i]), femaleOnlyRules) then Female else Unknown)
    {
      ghost var lowered := LowerParts(words[i]);
      s := FemaleEndingInWord(words[i], femaleOnlyRules);
      AllPartsStep(words, i);
      HasFemaleOnlyEndingAppend(AllParts(words[..i]), lowered, femaleOnlyRules);
      i := i + 1;
    }
    AllPartsSplit(words, i, wordsNum);
    HasFemaleOnlyEndingAppend(AllParts(words[..i]), AllParts(words[i..wordsNum]), femaleOnlyRules);
  }

  /** Sex recognition of `InflectStringUTF16`, over the `wordsNum` filled word
      slots: a given sex is kept; otherwise the name-list pass, then the
      female-ending pass, then the male default. */
  method ResolveSex(words: seq<string>, wordsNum: nat, given: Sex, maleNames: set<string>,
                    femaleNames: set<string>, femaleOnlyRules: seq<Rule>) returns (s: Sex)
    requires wordsNum <= |words|
    ensures s == ResolvedSex(words[..wordsNum], given, maleNames, femaleNames, femaleOnlyRules)
    ensures s != Unknown
  {
    s := given;
    if s == Unknown {
      s := NameListPass(words, wordsNum, maleNames, femaleNames);
      if s == Unknown {
        s := FemaleEndingPass(words, wordsNum, femaleOnlyRules);
      }
    }
    if s == Unknown {
      s := Male;
    }
  }

  /** The recognition policy in full: a given sex is kept; otherwise the first
      part, in word order, that is in a name list decides (male list first);
      failing that, a part with a female-only surname ending gives female;
      failing that, male. */
  lemma ResolvedSexPolicy(words: seq<string>, given: Sex, maleNames: set<string>,
                          femaleNames: set<string>, femaleOnlyRules: seq<Rule>)
    ensures var r := ResolvedSex(words, given, maleNames, femaleNames, femaleOnlyRules);
            var parts := AllParts(words);
            && (given != Unknown ==> r == given)
            && (given == Unknown ==> forall i: nat :: FirstListed(parts, i, maleNames, femaleNames) ==>
                  r == if parts[i] in maleNames then Male else Female)
            && (given == Unknown && (forall i :: 0 <= i < |parts| ==> parts[i] !in maleNames && parts[i] !in femaleNames) ==>
                  r == if HasFemaleOnlyEnding(parts, femaleOnlyRules) then Female else Male)
  {
    var parts := AllParts(words);
    forall i: nat | FirstListed(parts, i, maleNames, femaleNames)
      ensures NameListSex(parts, maleNames, femaleNames) == if parts[i] in maleNames then Male else Female
    {
      NameListSexOfFirstListed(parts, i, maleNames, femaleNames);
    }
    NameListSexUnknown(parts, maleNames, femaleNames);
  }
}
