/** Declension rules (`Service::Rule` of inflections.cpp): parsing one rule
    line, and finding the rule that applies to a lower-cased token. */
module Rules {
  import opened Types
  import opened Splitting

  /** A rule: the nominative ending it matches, the sex of the file it was
      read from, and one ending per grammatical case. */
  datatype Rule = Rule(ending: string, sexType: Sex, caseEndings: map<GrammaticalCase, string>)

  /** `rule.caseEndings[c]`: `std::map::operator[]` reads a missing key as "". */
  function CaseEnding(r: Rule, c: GrammaticalCase): (e: string)
    ensures HasSixEndings(r) && c in CaseKeys ==> e == r.caseEndings[c]
    ensures HasSixEndings(r) && c == All ==> e == []
  {
    if c in r.caseEndings then r.caseEndings[c] else []
  }

  /** The six cases a rule gives endings for. */
  const CaseKeys: set<GrammaticalCase> :=
    {Nominative, Genitive, Dative, Accusative, Instrumental, Prepositional}

  /** A rule with an ending for each of the six cases and nothing else. */
  predicate HasSixEndings(r: Rule) {
    r.caseEndings.Keys == CaseKeys
  }

  /** `InflateInvalidRuleException` ("Wrong format of rule"). */
  datatype RuleError = InvalidRuleFormat

  /** The number of fields a rule line must split into: `maxWords - 2`. */
  const RuleFieldCount: nat := MaxWords - 2

  /** The case endings read from fields 2..7 of a rule line. */
  function EndingsOf(w: seq<string>): (m: map<GrammaticalCase, string>)
    requires |w| == RuleFieldCount
    ensures m.Keys == CaseKeys
    ensures forall i :: 0 <= i < 6 ==> AllCases[i] in m && m[AllCases[i]] == w[i + 2]
  {
    map[Nominative := w[2], Genitive := w[3], Dative := w[4],
        Accusative := w[5], Instrumental := w[6], Prepositional := w[7]]
  }

  /** The rule a line denotes: field 0 is the match ending, field 1 is not
      read, fields 2..7 are the endings from nominative to prepositional. */
  function ParsedRule(line: string, sexType: Sex): (r: Result<Rule, RuleError>)
    ensures r.Ok? <==> |SplitWords(line)| == RuleFieldCount
    ensures r.Ok? ==> r.value.sexType == sexType && HasSixEndings(r.value)
    ensures r.Ok? ==> r.value.ending == SplitWords(line)[0]
    ensures r.Ok? ==> forall i :: 0 <= i < 6 ==> CaseEnding(r.value, AllCases[i]) == SplitWords(line)[i + 2]
  {
    var w := SplitWords(line);
    if |w| != RuleFieldCount then Err(InvalidRuleFormat)
    else Ok(Rule(w[0], sexType, EndingsOf(w)))
  }

  /** The `Rule(UnicodeString&, sex)` constructor: split the line, reject it
      unless it has exactly eight fields, then fill the case endings one by one. */
  method ParseRule(line: string, sexType: Sex) returns (r: Result<Rule, RuleError>)
    ensures r == ParsedRule(line, sexType)
  {
    var words := SplitWords(line);
    if |words| != MaxWords - 2 {
      return Err(InvalidRuleFormat);
    }
    var ending := words[0];
    var caseEndings: map<GrammaticalCase, string> := map[];
    caseEndings := caseEndings[Nominative := words[2]];
    caseEndings := caseEndings[Genitive := words[3]];
    caseEndings := caseEndings[Dative := words[4]];
    caseEndings := caseEndings[Accusative := words[5]];
    caseEndings := caseEndings[Instrumental := words[6]];
    caseEndings := caseEndings[Prepositional := words[7]];
    r := Ok(Rule(ending, sexType, caseEndings));
  }

  /** The six endings of `r`, nominative first. */
  function EndingList(r: Rule): (e: seq<string>)
    ensures |e| == 6 && forall i :: 0 <= i < 6 ==> e[i] == CaseEnding(r, AllCases[i])
  {
    seq(6, i requires 0 <= i < 6 => CaseEnding(r, AllCases[i]))
  }

  /** A rule file line for `r`: its ending, a sex field, then the six endings. */
  function RuleLine(r: Rule, sexField: string): string {
    r.ending + " " + JoinWith(" ", [sexField] + EndingList(r))
  }

  /** A field that survives being written to a rule line and split again. */
  predicate PlainField(f: string) {
    f != [] && NoDelimiter(SpaceRun, f)
  }

  /** The fields of a rule line are the rule's ending, the sex field and the
      six endings. */
  lemma SplitRuleLine(r: Rule, sexField: string)
    requires NoDelimiter(SpaceRun, r.ending) && PlainField(sexField)
    requires forall i :: 0 <= i < 6 ==> PlainField(CaseEnding(r, AllCases[i]))
    ensures SplitWords(RuleLine(r, sexField)) == [r.ending, sexField] + EndingList(r)
  {
    var rest := [sexField] + EndingList(r);
    SplitWordsOfJoin(rest, MaxWords - 1);
    JoinStartsWithFirst(" ", rest);
    SplitCons(r.ending, JoinWith(" ", rest), MaxWords);
  }

  /** Writing a rule as a line and parsing it back gives the same rule, whatever
      the sex field says: the rule's sex comes from the caller. An empty match
      ending (a catch-all rule) is written as a leading space. */
  lemma RuleLineRoundTrip(r: Rule, sexField: string)
    requires HasSixEndings(r)
    requires NoDelimiter(SpaceRun, r.ending) && PlainField(sexField)
    requires forall i :: 0 <= i < 6 ==> PlainField(CaseEnding(r, AllCases[i]))
    ensures ParsedRule(RuleLine(r, sexField), r.sexType) == Ok(r)
  {
    var w := [r.ending, sexField] + EndingList(r);
    var m := EndingsOf(w);
    forall c | c in CaseKeys
      ensures m[c] == r.caseEndings[c]
    {
      var i :| 0 <= i < 6 && AllCases[i] == c;
      assert m[c] == w[i + 2];
    }
    assert m == r.caseEndings;
    var line := RuleLine(r, sexField);
    SplitRuleLine(r, sexField);
    assert ParsedRule(line, r.sexType) == Ok(Rule(w[0], r.sexType, EndingsOf(w)));
  }

  /** `UnicodeString::endsWith`: `e` is a suffix of `s` (the empty string is a
      suffix of everything). */
  predicate EndsWith(s: string, e: string) {
    |e| <= |s| && s[|s| - |e|..] == e
  }

  /** `EndsWith` holds exactly when `s` is some text followed by `e`. */
  lemma EndsWithSuffix(s: string, e: string)
    ensures EndsWith(s, e) <==> exists p :: s == p + e
  {
    if EndsWith(s, e) {
      assert s == s[..|s| - |e|] + e;
    }
    forall p | s == p + e
      ensures EndsWith(s, e)
    {
      assert s[|p|..] == e;
    }
  }

  /** `e` occurs in `s` starting at `m`. */
  predicate OccursAt(s: string, e: string, m: int) {
    0 <= m <= |s| - |e| && s[m..m + |e|] == e
  }

  function LastIndexFrom(s: string, e: string, k: int): (r: int)
    requires e != [] && -1 <= k <= |s| - |e|
    ensures -1 <= r <= k
    ensures r >= 0 ==> OccursAt(s, e, r)
    ensures forall m :: r < m <= k ==> !OccursAt(s, e, m)
    decreases k + 1
  {
    if k < 0 then -1
    else if s[k..k + |e|] == e then k
    else LastIndexFrom(s, e, k - 1)
  }

  /** `UnicodeString::lastIndexOf(text)`: the start of the last occurrence of
      `e` in `s`, or -1 when there is none or when `e` is empty. */
  function LastIndexOf(s: string, e: string): (r: int)
    ensures r == -1 || OccursAt(s, e, r)
    ensures e != [] ==> forall m :: r < m ==> !OccursAt(s, e, m)
    ensures e == [] ==> r == -1
  {
    if e == [] || |e| > |s| then -1 else LastIndexFrom(s, e, |s| - |e|)
  }

  /** `UnicodeString::truncate(n)`: shortens to `n` characters when `n` is a
      shorter length; a negative `n` (cast to unsigned) leaves `s` as it is. */
  function Truncate(s: string, n: int): (r: string)
    ensures 0 <= n < |s| ==> r == s[..n]
    ensures !(0 <= n < |s|) ==> r == s
  {
    if 0 <= n < |s| then s[..n] else s
  }

  /** Truncating a token at the last occurrence of the matched ending cuts
      exactly that ending off; for the empty ending nothing is cut, so a catch-all rule
      keeps the whole token as its stem. */
  lemma TruncateAtEnding(s: string, e: string)
    requires EndsWith(s, e)
    ensures Truncate(s, LastIndexOf(s, e)) == s[..|s| - |e|]
    ensures e == [] ==> Truncate(s, LastIndexOf(s, e)) == s
  {
    if e != [] {
      assert OccursAt(s, e, |s| - |e|);
      assert LastIndexOf(s, e) == |s| - |e|;
    } else {
      assert s[..|s|] == s;
    }
  }

  /** The first rule, in list order, whose ending is a suffix of `token`. */
  function FirstMatch(token: string, rules: seq<Rule>): (r: Option<nat>)
    ensures r.Some? ==> r.value < |rules| && EndsWith(token, rules[r.value].ending)
    ensures r.Some? ==> forall i {:trigger EndsWith(token, rules[i].ending)} :: 0 <= i < r.value ==> !EndsWith(token, rules[i].ending)
    ensures r.None? <==> forall i {:trigger EndsWith(token, rules[i].ending)} :: 0 <= i < |rules| ==> !EndsWith(token, rules[i].ending)
  {
    if rules == [] then None
    else if EndsWith(token, rules[0].ending) then Some(0)
    else
      match FirstMatch(token, rules[1..])
      case None => None
      case Some(i) => Some(i + 1)
  }

  /** The rule scan of the engine: walk the list in order and stop at the
      first rule whose ending the token ends with. */
  method FindRule(token: string, rules: seq<Rule>) returns (r: Option<nat>)
    ensures r == FirstMatch(token, rules)
  {
    r := None;
    var i := 0;
    while i < |rules|
      invariant 0 <= i <= |rules|
      invariant forall k :: 0 <= k < i ==> !EndsWith(token, rules[k].ending)
    {
      if EndsWith(token, rules[i].ending) {
        r := Some(i);
        break;
      }
      i := i + 1;
    }
  }

  /** First match, not longest match: a rule listed earlier shadows every later
      rule, however long the later rule's ending is. */
  lemma EarlierRuleWins(token: string, rules: seq<Rule>, i: nat, j: nat)
    requires i < j < |rules|
    requires EndsWith(token, rules[i].ending)
    ensures FirstMatch(token, rules).Some? && FirstMatch(token, rules).value <= i
    ensures FirstMatch(token, rules) != Some(j)
  {
  }

  /** A catch-all rule (empty ending) matches every token. */
  lemma CatchAllMatches(token: string, rules: seq<Rule>, i: nat)
    requires i < |rules| && rules[i].ending == []
    ensures FirstMatch(token, rules).Some?
  {
    assert EndsWith(token, rules[i].ending);
  }

  /** The worked example: with "а" listed before "ова", "петрова" takes the "а" rule. */
  lemma ShortEndingListedFirstWins(ra: Rule, rova: Rule)
    requires ra.ending == "а" && rova.ending == "ова"
    ensures FirstMatch("петрова", [ra, rova]) == Some(0)
  {
    assert EndsWith("петрова", ra.ending);
  }
}
