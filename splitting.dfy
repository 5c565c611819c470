/** The two splitters of the engine, `RegexMatcher("\\s+")` and
    `RegexMatcher("-")`, used through `RegexMatcher::split(input, dest, capacity)`.

    ICU's split returns no field at all for an empty input; otherwise it
    copies the text before each delimiter match into the next slot, puts an
    empty field after a delimiter that ends the input, and, when only one
    slot is left, puts the whole unsplit remainder into it. */
module Splitting {
  import opened Types

  /** `\s` of ICU regular expressions: [\t\n\f\r\p{Z}]. */
  predicate IsSpace(c: char) {
    || c == '\t' || c == '\n' || c == '\U{000C}' || c == '\r'
    || c == ' ' || c == '\U{00A0}' || c == '\U{1680}'
    || ('\U{2000}' <= c <= '\U{200A}')
    || c == '\U{2028}' || c == '\U{2029}' || c == '\U{202F}' || c == '\U{205F}' || c == '\U{3000}'
  }

  /** The two patterns: a maximal run of white space, or one hyphen. */
  datatype Delimiter = SpaceRun | Hyphen

  predicate StartsDelimiter(d: Delimiter, c: char) {
    match d
    case SpaceRun => IsSpace(c)
    case Hyphen => c == '-'
  }

  predicate NoDelimiter(d: Delimiter, s: string) {
    forall k :: 0 <= k < |s| ==> !StartsDelimiter(d, s[k])
  }

  /** Index of the first delimiter character of `s`, or `|s|` when there is none. */
  function FirstDelimiter(d: Delimiter, s: string): (i: nat)
    ensures i <= |s|
    ensures NoDelimiter(d, s[..i])
    ensures i < |s| ==> StartsDelimiter(d, s[i])
  {
    if s == [] then 0
    else if StartsDelimiter(d, s[0]) then 0
    else
      var i := 1 + FirstDelimiter(d, s[1..]);
      assert s[..i] == [s[0]] + s[1..][..i - 1];
      i
  }

  /** End of the delimiter match that starts at `i`: one character past a
      hyphen, or the end of the maximal white-space run (the regex is greedy). */
  function DelimiterEnd(d: Delimiter, s: string, i: nat): (j: nat)
    requires i < |s| && StartsDelimiter(d, s[i])
    ensures i < j <= |s|
    ensures d == Hyphen ==> j == i + 1
    ensures d == SpaceRun ==> j < |s| ==> !IsSpace(s[j])
    ensures d == SpaceRun ==> forall k :: i <= k < j ==> IsSpace(s[k])
    decreases |s| - i
  {
    if d == Hyphen || i + 1 == |s| || !IsSpace(s[i + 1]) then i + 1
    else DelimiterEnd(d, s, i + 1)
  }

  /** The fields of a non-empty remainder when `cap` output slots are left. */
  function Fields(d: Delimiter, s: string, cap: nat): (r: seq<string>)
    requires cap >= 1
    ensures 1 <= |r| <= cap
    ensures forall k {:trigger NoDelimiter(d, r[k])} ::
              0 <= k < |r| && (k < |r| - 1 || |r| < cap) ==> NoDelimiter(d, r[k])
    decreases |s|
  {
    var i := FirstDelimiter(d, s);
    if cap == 1 then [s]
    else if i == |s| then
      assert s[..i] == s;
      [s]
    else [s[..i]] + Fields(d, s[DelimiterEnd(d, s, i)..], cap - 1)
  }

  /** `RegexMatcher::split(s, dest, cap, status)`; its return value is the length. */
  function Split(d: Delimiter, s: string, cap: nat): (r: seq<string>)
    requires cap >= 1
    ensures |r| <= cap
    ensures r == [] <==> s == []
    ensures forall k {:trigger NoDelimiter(d, r[k])} ::
              0 <= k < |r| && (k < |r| - 1 || |r| < cap) ==> NoDelimiter(d, r[k])
  {
    if s == [] then [] else Fields(d, s, cap)
  }

  /** `spaceSplitter.split(in, words, maxWords, status)`. */
  function SplitWords(s: string): (r: seq<string>)
    ensures |r| <= MaxWords
    ensures forall k {:trigger NoDelimiter(SpaceRun, r[k])} ::
              0 <= k < |r| && (k < |r| - 1 || |r| < MaxWords) ==> NoDelimiter(SpaceRun, r[k])
  {
    Split(SpaceRun, s, MaxWords)
  }

  /** `hyphenSplitter.split(word, Str, maxWords, status)`. */
  function SplitHyphens(s: string): (r: seq<string>)
    ensures |r| <= MaxWords
    ensures forall k {:trigger NoDelimiter(Hyphen, r[k])} ::
              0 <= k < |r| && (k < |r| - 1 || |r| < MaxWords) ==> NoDelimiter(Hyphen, r[k])
  {
    Split(Hyphen, s, MaxWords)
  }

  /** The ten-slot array `words[maxWords]` after the split: the fields, then
      default-constructed (empty) strings. */
  function Slots(s: string): (r: seq<string>)
    ensures |r| == MaxWords
    ensures r[..|SplitWords(s)|] == SplitWords(s)
    ensures forall i :: |SplitWords(s)| <= i < MaxWords ==> r[i] == []
  {
    var f := SplitWords(s);
    f + seq(MaxWords - |f|, _ => [])
  }

  /** The parts joined with `sep` between consecutive parts. */
  function JoinWith(sep: string, parts: seq<string>): string {
    if parts == [] then []
    else if |parts| == 1 then parts[0]
    else parts[0] + sep + JoinWith(sep, parts[1..])
  }

  /** Appending one more part to a non-empty list of parts. */
  lemma {:induction false} JoinWithSnoc(sep: string, parts: seq<string>, x: string)
    requires parts != []
    ensures JoinWith(sep, parts + [x]) == JoinWith(sep, parts) + sep + x
  {
    if |parts| == 1 {
      assert parts + [x] == [parts[0], x];
      assert JoinWith(sep, [x]) == x;
    } else {
      assert (parts + [x])[1..] == parts[1..] + [x];
      JoinWithSnoc(sep, parts[1..], x);
    }
  }

  /** Each part followed by `sep`. */
  function Terminated(parts: seq<string>, sep: string): string {
    if parts == [] then []
    else Terminated(parts[..|parts| - 1], sep) + parts[|parts| - 1] + sep
  }

  /** Joining is terminating all parts but the last, then appending the last. */
  lemma {:induction false} JoinAsTerminated(sep: string, parts: seq<string>)
    requires parts != []
    ensures JoinWith(sep, parts) == Terminated(parts[..|parts| - 1], sep) + parts[|parts| - 1]
    decreases |parts|
  {
    var n := |parts|;
    if n == 1 {
      assert parts[..0] == [];
    } else {
      var init := parts[..n - 1];
      JoinAsTerminated(sep, init);
      assert init[..|init| - 1] == parts[..n - 2];
      assert parts == init + [parts[n - 1]];
      JoinWithSnoc(sep, init, parts[n - 1]);
      assert init == parts[..n - 2] + [parts[n - 2]];
    }
  }

  lemma {:induction false} FieldsJoinHyphen(s: string, cap: nat)
    requires cap >= 1
    ensures JoinWith("-", Fields(Hyphen, s, cap)) == s
    decreases |s|
  {
    var i := FirstDelimiter(Hyphen, s);
    if cap == 1 || i == |s| {
    } else {
      var rest := s[i + 1..];
      FieldsJoinHyphen(rest, cap - 1);
      assert Fields(Hyphen, s, cap) == [s[..i]] + Fields(Hyphen, rest, cap - 1);
      assert s == s[..i] + "-" + rest;
    }
  }

  /** Splitting on hyphens loses nothing: joining the pieces with hyphens gives
      the word back, however many pieces the capacity allowed. */
  lemma HyphenSplitRoundTrip(s: string, cap: nat)
    requires cap >= 1
    ensures JoinWith("-", Split(Hyphen, s, cap)) == s
  {
    if s != [] {
      FieldsJoinHyphen(s, cap);
    }
  }

  /** A non-empty string without a delimiter is a single field. */
  lemma SplitNoDelimiter(d: Delimiter, s: string, cap: nat)
    requires cap >= 1 && s != [] && NoDelimiter(d, s)
    ensures Split(d, s, cap) == [s]
  {
    assert s[..|s|] == s;
  }

  /** A word split into a single hyphen piece is that piece. */
  lemma SingleHyphenPiece(s: string, cap: nat)
    requires cap >= 1 && |Split(Hyphen, s, cap)| == 1
    ensures Split(Hyphen, s, cap) == [s]
  {
    HyphenSplitRoundTrip(s, cap);
  }

  lemma {:induction false} FirstDelimiterOfJoin(d: Delimiter, t: string, x: string)
    requires NoDelimiter(d, t)
    requires x != [] && StartsDelimiter(d, x[0])
    ensures FirstDelimiter(d, t + x) == |t|
    decreases |t|
  {
    if t != [] {
      assert !StartsDelimiter(d, t[0]);
      assert (t + x)[1..] == t[1..] + x;
      FirstDelimiterOfJoin(d, t[1..], x);
    }
  }

  /** A field, one space and a text that starts with a non-space split into
      that field followed by the fields of the text. */
  lemma SplitCons(e: string, rest: string, cap: nat)
    requires NoDelimiter(SpaceRun, e)
    requires rest != [] && !IsSpace(rest[0]) && cap >= 2
    ensures Split(SpaceRun, e + " " + rest, cap) == [e] + Split(SpaceRun, rest, cap - 1)
  {
    var s := e + " " + rest;
    assert s == e + (" " + rest);
    FirstDelimiterOfJoin(SpaceRun, e, " " + rest);
    var i := |e|;
    assert s[i + 1] == rest[0];
    assert DelimiterEnd(SpaceRun, s, i) == i + 1;
    assert s[i + 1..] == rest;
    assert s[..i] == e;
  }

  /** Tokens that are non-empty and free of white space, joined by single
      spaces, split back into the same tokens. */
  lemma {:induction false} SplitWordsOfJoin(ts: seq<string>, cap: nat)
    requires 1 <= |ts| <= cap
    requires forall i :: 0 <= i < |ts| ==> ts[i] != [] && NoDelimiter(SpaceRun, ts[i])
    ensures Split(SpaceRun, JoinWith(" ", ts), cap) == ts
  {
    if |ts| == 1 {
      SplitNoDelimiter(SpaceRun, ts[0], cap);
    } else {
      var rest := JoinWith(" ", ts[1..]);
      JoinStartsWithFirst(" ", ts[1..]);
      SplitCons(ts[0], rest, cap);
      SplitWordsOfJoin(ts[1..], cap - 1);
      assert ts == [ts[0]] + ts[1..];
    }
  }

  lemma {:induction false} JoinStartsWithFirst(sep: string, parts: seq<string>)
    requires parts != [] && parts[0] != []
    ensures JoinWith(sep, parts) != [] && JoinWith(sep, parts)[0] == parts[0][0]
  {
  }

  /** A text that starts with a character other than white space has a
      non-empty first field. */
  lemma FirstFieldNonEmpty(s: string, cap: nat)
    requires cap >= 1 && s != [] && !IsSpace(s[0])
    ensures Fields(SpaceRun, s, cap)[0] != []
  {
    var i := FirstDelimiter(SpaceRun, s);
    assert i > 0;
    if cap > 1 && i < |s| {
      assert Fields(SpaceRun, s, cap)[0] == s[..i];
    }
  }

  /** Fields of a text that neither starts nor ends with white space are never
      empty. */
  lemma {:induction false} FieldsNonEmpty(s: string, cap: nat)
    requires cap >= 1 && s != []
    requires !IsSpace(s[0]) && !IsSpace(s[|s| - 1])
    ensures forall k :: 0 <= k < |Fields(SpaceRun, s, cap)| ==> Fields(SpaceRun, s, cap)[k] != []
    decreases |s|
  {
    var i := FirstDelimiter(SpaceRun, s);
    if cap == 1 || i == |s| {
    } else {
      var j := DelimiterEnd(SpaceRun, s, i);
      assert j < |s|;
      var rest := s[j..];
      FieldsNonEmpty(rest, cap - 1);
      assert i > 0;
    }
  }
}
