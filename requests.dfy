/** The request reader of inflectionsTest.cpp: the sex and case markers, and
    the way one line of a request file is split into tokens and reassembled
    into the phrase, the sex and the case handed to `InflectStringUTF16`. */
module Requests {
  import opened Types
  import opened Casing
  import opened Splitting
  import opened Declension
  import opened DeclensionProperties

  /** `WhatSexIsIt`: the token, lower-cased, is "м" for male or "ж" for
      female; anything else is unknown. */
  function SexMarker(s: string): (r: Sex)
    ensures r == Male <==> s == "м" || s == "М"
    ensures r == Female <==> s == "ж" || s == "Ж"
  {
    ToLowerSingle(s, 'м');
    ToLowerSingle(s, 'ж');
    assert |s| == 1 ==> s == [s[0]];
    var l := ToLower(s);
    if l == "м" then Male else if l == "ж" then Female else Unknown
  }

  /** The marker a request file uses for a known sex. */
  function MarkerOf(x: Sex): string
    requires x != Unknown
  {
    if x == Male then "м" else "ж"
  }

  /** The one-letter marker of each of the six cases. */
  function CaseLetter(c: GrammaticalCase): char
    requires c != All
  {
    match c
    case Nominative => 'и'
    case Genitive => 'р'
    case Dative => 'д'
    case Accusative => 'в'
    case Instrumental => 'т'
    case Prepositional => 'п'
  }

  /** `WhatGrammaticalCaseIsIt`: the token, lower-cased, is one of the six
      case letters; anything else asks for all six cases. A case marker is
      exactly the lower- or upper-case letter of its case. */
  function CaseMarker(s: string): (r: GrammaticalCase)
    ensures r != All ==> s == [CaseLetter(r)] || s == [Upper(CaseLetter(r))]
    ensures forall c {:trigger CaseLetter(c)} ::
              c != All && (s == [CaseLetter(c)] || s == [Upper(CaseLetter(c))]) ==> r == c
  {
    ToLowerSingle(s, 'и');
    ToLowerSingle(s, 'р');
    ToLowerSingle(s, 'д');
    ToLowerSingle(s, 'в');
    ToLowerSingle(s, 'т');
    ToLowerSingle(s, 'п');
    assert |s| == 1 ==> s == [s[0]];
    var l := ToLower(s);
    if l == "и" then Nominative
    else if l == "р" then Genitive
    else if l == "д" then Dative
    else if l == "в" then Accusative
    else if l == "т" then Instrumental
    else if l == "п" then Prepositional
    else All
  }

  /** A one-character token lower-cases to the lower-cased character; any
      other length never lower-cases to one character. */
  lemma {:induction false} ToLowerSingle(s: string, c: char)
    ensures ToLower(s) == [c] <==> |s| == 1 && Lower(s[0]) == c
  {
    if |s| == 1 {
      assert ToLower(s) == [Lower(s[0])];
    }
  }

  /** Reading a written marker gives the sex back, and no sex marker is a case
      marker. */
  lemma SexMarkerRoundTrip(x: Sex)
    requires x != Unknown
    ensures SexMarker(MarkerOf(x)) == x
    ensures CaseMarker(MarkerOf(x)) == All
  {
    assert ToLower(MarkerOf(x)) == [Lower(MarkerOf(x)[0])];
  }

  /** Reading a written case letter, in either case, gives the case back, and
      no case letter is a sex marker. */
  lemma CaseMarkerRoundTrip(c: GrammaticalCase)
    requires c != All
    ensures CaseMarker([CaseLetter(c)]) == c && CaseMarker([Upper(CaseLetter(c))]) == c
    ensures SexMarker([CaseLetter(c)]) == Unknown
  {
  }

  /** The arguments of one `InflectStringUTF16` call. */
  datatype Request = Request(phrase: string, sexType: Sex, gc: GrammaticalCase)

  /** What a line of a request file is: skipped (empty or a `#` comment),
      unreadable (fewer than two tokens: the reader would index before its
      word buffer), or a request. */
  datatype LineKind = Skip | Unreadable | Query(request: Request)

  predicate IsSkipped(line: string) {
    line == [] || line[0] == '#'
  }

  /** The request read from the tokens `w` of a line. The second-to-last token
      gives the sex and the last token the case; if the second-to-last is not
      a sex marker, the last is tried as one. The phrase is every token but
      the last two, each followed by a space; then the second-to-last token
      when the last is a sex marker; then both last tokens when no sex was
      found. Each appended token is followed by a space. */
  function RequestOf(w: seq<string>): (r: Request)
    requires |w| >= 2
    ensures SexMarker(w[|w| - 2]) != Unknown ==> r.sexType == SexMarker(w[|w| - 2])
    ensures SexMarker(w[|w| - 2]) == Unknown ==> r.sexType == SexMarker(w[|w| - 1])
    ensures r.gc == CaseMarker(w[|w| - 1])
    ensures Terminated(w[..|w| - 2], " ") <= r.phrase
    ensures SexMarker(w[|w| - 1]) != Unknown ==> r.phrase == Terminated(w[..|w| - 1], " ")
    ensures SexMarker(w[|w| - 2]) != Unknown && SexMarker(w[|w| - 1]) == Unknown ==>
              r.phrase == Terminated(w[..|w| - 2], " ")
    ensures r.sexType == Unknown ==> r.phrase == Terminated(w, " ")
    ensures r.phrase == [] || r.phrase[|r.phrase| - 1] == ' '
  {
    var n := |w|;
    assert w[..n - 1][..n - 2] == w[..n - 2];
    TerminatedTwo(w);
    var first := SexMarker(w[n - 2]);
    var sexType := if first != Unknown then first else SexMarker(w[n - 1]);
    var head := Terminated(w[..n - 2], " ");
    var phrase :=
      if SexMarker(w[n - 1]) != Unknown then head + w[n - 2] + " "
      else if sexType == Unknown then head + w[n - 2] + " " + w[n - 1] + " "
      else head;
    TerminatedEndsWithSep(w[..n - 2], " ");
    Request(phrase, sexType, CaseMarker(w[n - 1]))
  }

  /** The kind of a line. */
  function LineKindOf(line: string): (r: LineKind)
    ensures r == Skip <==> IsSkipped(line)
    ensures r == Unreadable <==> !IsSkipped(line) && |SplitWords(line)| < 2
  {
    if IsSkipped(line) then Skip
    else
      var w := SplitWords(line);
      if |w| < 2 then Unreadable else Query(RequestOf(w))
  }

  /** A text terminated by `sep` is empty or ends with the last character of `sep`. */
  lemma {:induction false} TerminatedEndsWithSep(parts: seq<string>, sep: string)
    requires sep != []
    ensures var t := Terminated(parts, sep); t == [] || t[|t| - 1] == sep[|sep| - 1]
  {
  }

  /** The body of the reader's line loop up to the engine call: skip empty and
      comment lines, split into at most ten tokens, read the sex and case
      markers, then rebuild the phrase token by token. */
  method ParseRequest(line: string) returns (r: LineKind)
    ensures r == LineKindOf(line)
  {
    if line == [] || line[0] == '#' {
      return Skip;
    }
    var words := SplitWords(line);
    var wordsNum := |words|;
    if wordsNum < 2 {
      return Unreadable;
    }
    var sexType := SexMarker(words[wordsNum - 2]);
    var gc := CaseMarker(words[wordsNum - 1]);
    var us: string := [];
    for i := 0 to wordsNum - 2
      invariant us == Terminated(words[..i], " ")
    {
      assert words[..i + 1][..i] == words[..i];
      us := us + words[i] + " ";
    }
    if sexType == Unknown {
      sexType := SexMarker(words[wordsNum - 1]);
    }
    if SexMarker(words[wordsNum - 1]) != Unknown {
      us := us + words[wordsNum - 2] + " ";
    } else if sexType == Unknown {
      us := us + words[wordsNum - 2] + " " + words[wordsNum - 1] + " ";
    }
    r := Query(Request(us, sexType, gc));
  }

  /** A token of a phrase that survives being written to a request line. */
  predicate PlainToken(s: string) {
    s != [] && NoDelimiter(SpaceRun, s)
  }

  /** A token that is neither a sex marker nor a case marker. */
  predicate Unmarked(s: string) {
    SexMarker(s) == Unknown && CaseMarker(s) == All
  }

  /** The request line for the phrase tokens `ts`: the tokens, then the sex
      marker when the sex is known, then the case letter when one case is
      asked for, separated by single spaces. */
  function RequestLine(ts: seq<string>, x: Sex, c: GrammaticalCase): string {
    JoinWith(" ", LineTokens(ts, x, c))
  }

  /** The tokens of a request line written by `RequestLine`. */
  lemma {:induction false} RequestLineTokens(ts: seq<string>, x: Sex, c: GrammaticalCase)
    requires 1 <= |ts| && |ts| + 2 <= MaxWords
    requires forall i :: 0 <= i < |ts| ==> PlainToken(ts[i])
    ensures SplitWords(RequestLine(ts, x, c)) == LineTokens(ts, x, c)
  {
    var all := LineTokens(ts, x, c);
    forall i | 0 <= i < |all|
      ensures all[i] != [] && NoDelimiter(SpaceRun, all[i])
    {
      if i == |ts| && x != Unknown {
        assert all[i] == MarkerOf(x);
      } else if i >= |ts| {
        assert all[i] == [CaseLetter(c)];
      } else {
        assert all[i] == ts[i];
      }
    }
    SplitWordsOfJoin(all, MaxWords);
  }

  /** The request read from tokens, a sex marker and one more token: the last
      token is read as the case and never reaches the phrase, whether or not
      it is a case letter. */
  lemma {:induction false} RequestOfMarked(ts: seq<string>, x: Sex, t: string)
    requires x != Unknown && SexMarker(t) == Unknown
    ensures RequestOf(ts + [MarkerOf(x), t]) == Request(Terminated(ts, " "), x, CaseMarker(t))
  {
    var w := ts + [MarkerOf(x), t];
    SexMarkerRoundTrip(x);
    assert w[..|w| - 2] == ts;
  }

  /** The request read from tokens and a case letter with no sex marker: the
      sex is left to the engine, and the case letter is both read as the case
      and kept as the last token of the phrase. */
  lemma {:induction false} RequestOfCaseOnly(ts: seq<string>, c: GrammaticalCase)
    requires c != All && ts != [] && SexMarker(ts[|ts| - 1]) == Unknown
    ensures RequestOf(ts + [[CaseLetter(c)]]) == Request(Terminated(ts + [[CaseLetter(c)]], " "), Unknown, c)
  {
    var w := ts + [[CaseLetter(c)]];
    CaseMarkerRoundTrip(c);
    assert w[|w| - 2] == ts[|ts| - 1];
  }

  /** The request read from tokens and a sex marker: all cases. */
  lemma {:induction false} RequestOfSexOnly(ts: seq<string>, x: Sex)
    requires x != Unknown && ts != [] && Unmarked(ts[|ts| - 1])
    ensures RequestOf(ts + [MarkerOf(x)]) == Request(Terminated(ts, " "), x, All)
  {
    var w := ts + [MarkerOf(x)];
    SexMarkerRoundTrip(x);
    assert w[..|w| - 2] == ts[..|ts| - 1];
  }

  /** The request read from tokens alone: the sex is left to the engine and
      all cases are asked for. */
  lemma {:induction false} RequestOfBare(ts: seq<string>)
    requires |ts| >= 2 && Unmarked(ts[|ts| - 1]) && Unmarked(ts[|ts| - 2])
    ensures RequestOf(ts) == Request(Terminated(ts, " "), Unknown, All)
  {
    var n := |ts|;
    var head := Terminated(ts[..n - 2], " ");
    assert RequestOf(ts).phrase == head + ts[n - 2] + " " + ts[n - 1] + " ";
    TerminatedTwo(ts);
  }

  /** Terminating a list is terminating all but its last two parts, then
      each of those two. */
  lemma {:induction false} TerminatedTwo(ts: seq<string>)
    requires |ts| >= 2
    ensures Terminated(ts, " ") == Terminated(ts[..|ts| - 2], " ") + ts[|ts| - 2] + " " + ts[|ts| - 1] + " "
  {
    var n := |ts|;
    var init := ts[..n - 1];
    assert init[..n - 2] == ts[..n - 2];
    assert Terminated(init, " ") == Terminated(ts[..n - 2], " ") + ts[n - 2] + " ";
  }

  /** The tokens a request line is written from. */
  function LineTokens(ts: seq<string>, x: Sex, c: GrammaticalCase): (w: seq<string>)
    ensures |w| == |ts| + (if x != Unknown then 1 else 0) + (if c != All then 1 else 0)
    ensures w[..|ts|] == ts
  {
    var sexPart := if x != Unknown then [MarkerOf(x)] else [];
    var casePart := if c != All then [[CaseLetter(c)]] else [];
    ts + sexPart + casePart
  }

  /** Writing a request and reading it back gives the phrase tokens, each
      followed by a space, the sex and the case, for the three line shapes a
      request file uses: tokens, sex, case; tokens and sex (all cases); tokens
      alone (sex inferred, all cases), as long as the last token is not
      itself a marker. */
  lemma {:induction false} RequestRoundTrip(ts: seq<string>, x: Sex, c: GrammaticalCase)
    requires x != Unknown || c == All
    requires 1 <= |ts| && |ts| + 2 <= MaxWords
    requires forall i :: 0 <= i < |ts| ==> PlainToken(ts[i])
    requires !IsSkipped(ts[0])
    requires x == Unknown ==> |ts| >= 2
    requires Unmarked(ts[|ts| - 1])
    requires x == Unknown ==> Unmarked(ts[|ts| - 2])
    ensures LineKindOf(RequestLine(ts, x, c)) == Query(Request(Terminated(ts, " "), x, c))
  {
    if x != Unknown && c != All {
      FullLine(ts, x, c);
    } else if x != Unknown {
      SexOnlyLine(ts, x);
    } else {
      BareLine(ts);
    }
  }

  /** The line shape "tokens, sex marker, case letter". */
  lemma {:induction false} FullLine(ts: seq<string>, x: Sex, c: GrammaticalCase)
    requires x != Unknown && c != All
    requires 1 <= |ts| && |ts| + 2 <= MaxWords
    requires forall i :: 0 <= i < |ts| ==> PlainToken(ts[i])
    requires !IsSkipped(ts[0])
    ensures LineKindOf(RequestLine(ts, x, c)) == Query(Request(Terminated(ts, " "), x, c))
  {
    LineQuery(ts, x, c);
    FullTokens(ts, x, c);
  }

  /** The tokens of a line of shape "tokens, sex marker, case letter" read as
      the terminated tokens, that sex and that case. */
  lemma {:induction false} FullTokens(ts: seq<string>, x: Sex, c: GrammaticalCase)
    requires x != Unknown && c != All
    ensures RequestOf(LineTokens(ts, x, c)) == Request(Terminated(ts, " "), x, c)
  {
    assert LineTokens(ts, x, c) == ts + [MarkerOf(x), [CaseLetter(c)]];
    CaseMarkerRoundTrip(c);
    RequestOfMarked(ts, x, [CaseLetter(c)]);
  }

  /** The line shape "tokens, sex marker". */
  lemma {:induction false} SexOnlyLine(ts: seq<string>, x: Sex)
    requires x != Unknown
    requires 1 <= |ts| && |ts| + 2 <= MaxWords
    requires forall i :: 0 <= i < |ts| ==> PlainToken(ts[i])
    requires !IsSkipped(ts[0]) && Unmarked(ts[|ts| - 1])
    ensures LineKindOf(RequestLine(ts, x, All)) == Query(Request(Terminated(ts, " "), x, All))
  {
    LineQuery(ts, x, All);
    assert LineTokens(ts, x, All) == ts + [MarkerOf(x)];
    RequestOfSexOnly(ts, x);
  }

  /** The line shape "tokens" alone. */
  lemma {:induction false} BareLine(ts: seq<string>)
    requires 2 <= |ts| && |ts| + 2 <= MaxWords
    requires forall i :: 0 <= i < |ts| ==> PlainToken(ts[i])
    requires !IsSkipped(ts[0]) && Unmarked(ts[|ts| - 1]) && Unmarked(ts[|ts| - 2])
    ensures LineKindOf(RequestLine(ts, Unknown, All)) == Query(Request(Terminated(ts, " "), Unknown, All))
  {
    LineQuery(ts, Unknown, All);
    assert LineTokens(ts, Unknown, All) == ts;
    RequestOfBare(ts);
  }

  /** A request line with a case letter but no sex marker reads back with the
      sex left to the engine, that case, and the case letter still in the
      phrase as its last token. */
  lemma {:induction false} CaseOnlyRoundTrip(ts: seq<string>, c: GrammaticalCase)
    requires c != All
    requires 1 <= |ts| && |ts| + 2 <= MaxWords
    requires forall i :: 0 <= i < |ts| ==> PlainToken(ts[i])
    requires !IsSkipped(ts[0])
    requires SexMarker(ts[|ts| - 1]) == Unknown
    ensures LineKindOf(RequestLine(ts, Unknown, c))
         == Query(Request(Terminated(ts + [[CaseLetter(c)]], " "), Unknown, c))
  {
    var w := LineTokens(ts, Unknown, c);
    LineQuery(ts, Unknown, c);
    assert w == ts + [[CaseLetter(c)]];
    RequestOfCaseOnly(ts, c);
  }

  /** A request line written from plain tokens and at least two tokens in all
      is read as the request of its tokens. */
  lemma {:induction false} LineQuery(ts: seq<string>, x: Sex, c: GrammaticalCase)
    requires 1 <= |ts| && |ts| + 2 <= MaxWords
    requires forall i :: 0 <= i < |ts| ==> PlainToken(ts[i])
    requires !IsSkipped(ts[0])
    requires |LineTokens(ts, x, c)| >= 2
    ensures LineKindOf(RequestLine(ts, x, c)) == Query(RequestOf(LineTokens(ts, x, c)))
  {
    var w := LineTokens(ts, x, c);
    RequestLineTokens(ts, x, c);
    JoinStartsWithFirst(" ", w);
    QueryLine(RequestLine(ts, x, c), w);
  }

  /** A line that is not skipped and has at least two tokens is a request. */
  lemma {:induction false} QueryLine(line: string, w: seq<string>)
    requires w == SplitWords(line) && |w| >= 2
    requires line != [] && line[0] != '#'
    ensures LineKindOf(line) == Query(RequestOf(w))
  {
  }

  /** What the reader writes for one line. */
  datatype LineOutcome = Skipped | NotRead | Answered(text: string)

  /** The reader's answer to a line: the engine's answer followed by two line
      breaks. */
  function Respond(line: string, cfg: Config): (r: LineOutcome)
    ensures r.Skipped? <==> IsSkipped(line)
    ensures r.Answered? ==> |r.text| >= 2 && r.text[|r.text| - 2..] == "\n\n"
  {
    match LineKindOf(line)
    case Skip => Skipped
    case Unreadable => NotRead
    case Query(q) => Answered(Inflect(q.phrase, q.sexType, q.gc, cfg) + "\n\n")
  }

  /** One pass of the reader's line loop: parse, call the engine, write the
      answer and an empty line. */
  method RespondToLine(line: string, cfg: Config) returns (r: LineOutcome)
    ensures r == Respond(line, cfg)
  {
    var kind := ParseRequest(line);
    match kind
    case Skip => r := Skipped;
    case Unreadable => r := NotRead;
    case Query(q) => {
      var ans := InflectStringUtf16(q.phrase, q.sexType, q.gc, cfg);
      r := Answered(ans + "\n\n");
    }
  }

  /** The phrase the reader builds ends with a space, so the engine's own
      split sees one more, empty, field after the phrase tokens. */
  lemma {:induction false} TrailingSpaceField(ts: seq<string>, cap: nat)
    requires 1 <= |ts| < cap
    requires forall i :: 0 <= i < |ts| ==> PlainToken(ts[i])
    ensures Split(SpaceRun, JoinWith(" ", ts) + " ", cap) == ts + [[]]
  {
    if |ts| == 1 {
      var s := ts[0] + " ";
      assert JoinWith(" ", ts) == ts[0];
      FirstDelimiterOfJoin(SpaceRun, ts[0], " ");
      var i := FirstDelimiter(SpaceRun, s);
      assert DelimiterEnd(SpaceRun, s, i) == |s|;
      assert s[|s|..] == [];
      assert s[..i] == ts[0];
      assert Fields(SpaceRun, [], cap - 1) == [[]];
      assert Fields(SpaceRun, s, cap) == [s[..i]] + Fields(SpaceRun, s[|s|..], cap - 1);
    } else {
      var rest := JoinWith(" ", ts[1..]);
      JoinStartsWithFirst(" ", ts[1..]);
      assert JoinWith(" ", ts) + " " == ts[0] + " " + (rest + " ");
      SplitCons(ts[0], rest + " ", cap);
      TrailingSpaceField(ts[1..], cap - 1);
      assert ts + [[]] == [ts[0]] + (ts[1..] + [[]]);
    }
  }

  /** Terminating every part is joining them and terminating the result. */
  lemma {:induction false} TerminatedAsJoin(ts: seq<string>, sep: string)
    requires ts != []
    ensures Terminated(ts, sep) == JoinWith(sep, ts) + sep
  {
    var all := ts + [[]];
    JoinAsTerminated(sep, all);
    assert all[..|all| - 1] == ts && all[|all| - 1] == [];
    JoinWithSnoc(sep, ts, []);
    assert Terminated(ts, sep) + [] == Terminated(ts, sep);
    assert JoinWith(sep, ts) + sep + [] == JoinWith(sep, ts) + sep;
  }

  /** The phrase of a request read back from a request line splits, inside the
      engine, into the phrase tokens and one trailing empty field. */
  lemma {:induction false} PhraseFields(ts: seq<string>)
    requires 1 <= |ts| < MaxWords
    requires forall i :: 0 <= i < |ts| ==> PlainToken(ts[i])
    ensures SplitWords(Terminated(ts, " ")) == ts + [[]]
  {
    TerminatedAsJoin(ts, " ");
    TrailingSpaceField(ts, MaxWords);
  }

  /** The phrase the reader builds from plain tokens `ts` starts with a word
      and splits, inside the engine, into `ts` and one empty field. So, as the
      engine is written, each line of its answer is the forms of `ts` joined
      by single spaces, followed by one space per word slot `ts` leaves empty. */
  lemma {:induction false} PhraseAnswerLines(ts: seq<string>, given: Sex, gc: GrammaticalCase, cfg: Config)
    requires 1 <= |ts| < MaxWords
    requires forall i :: 0 <= i < |ts| ==> PlainToken(ts[i])
    requires NoVanishingForms(cfg)
    ensures var phrase := Terminated(ts, " ");
            var t := TablesFor(cfg, SexOf(phrase, given, cfg));
            var lines := CaseLines(phrase, given, gc, cfg);
            forall k :: 0 <= k < |lines| ==>
              lines[k] == Phrase(ts, t, SlotCase(gc, k)) + Spaces(MaxWords - |ts|)
  {
    var phrase := Terminated(ts, " ");
    var t := TablesFor(cfg, SexOf(phrase, given, cfg));
    PhraseFields(ts);
    TerminatedAsJoin(ts, " ");
    JoinStartsWithFirst(" ", ts);
    assert StartsWithWord(phrase);
    TrailingSpacesAsWritten(phrase, given, gc, cfg);
    var lines := CaseLines(phrase, given, gc, cfg);
    forall k | 0 <= k < |lines|
      ensures lines[k] == Phrase(ts, t, SlotCase(gc, k)) + Spaces(MaxWords - |ts|)
    {
      PhraseWithEmptyWord(ts, t, SlotCase(gc, k));
      assert " " + Spaces(MaxWords - |ts| - 1) == Spaces(MaxWords - |ts|);
    }
  }
}
