/** Case mapping used by the engine: `UnicodeString::toLower` and
    `UnicodeString::toTitle(0, Locale("ru_RU"))` of ICU.

    Letters are the cased letters of Basic Latin and of the Cyrillic block
    U+0400..U+045F.  `toTitle` with a null break iterator title-cases every
    word of the string; a word starts at the beginning of the string or after
    any character that is not a letter. */
module Casing {

  predicate IsUpper(c: char) {
    ('A' <= c <= 'Z') || ('\U{0400}' <= c <= '\U{042F}')
  }

  predicate IsLower(c: char) {
    ('a' <= c <= 'z') || ('\U{0430}' <= c <= '\U{045F}')
  }

  predicate IsLetter(c: char) {
    IsUpper(c) || IsLower(c)
  }

  /** Simple lower-case mapping of one character. */
  function Lower(c: char): (r: char)
    ensures IsLetter(r) == IsLetter(c)
    ensures IsLetter(c) ==> IsLower(r)
    ensures !IsLetter(c) ==> r == c
    ensures IsLower(c) ==> r == c
  {
    if 'A' <= c <= 'Z' then (c as int + 0x20) as char
    else if '\U{0400}' <= c <= '\U{040F}' then (c as int + 0x50) as char
    else if '\U{0410}' <= c <= '\U{042F}' then (c as int + 0x20) as char
    else c
  }

  /** Simple upper-case (and, for these scripts, title-case) mapping of one character. */
  function Upper(c: char): (r: char)
    ensures IsLetter(r) == IsLetter(c)
    ensures IsLetter(c) ==> IsUpper(r)
    ensures !IsLetter(c) ==> r == c
    ensures IsLower(c) ==> Lower(r) == c
    ensures IsUpper(c) ==> r == c
  {
    if 'a' <= c <= 'z' then (c as int - 0x20) as char
    else if '\U{0450}' <= c <= '\U{045F}' then (c as int - 0x50) as char
    else if '\U{0430}' <= c <= '\U{044F}' then (c as int - 0x20) as char
    else c
  }

  lemma UpperLowerStable(c: char)
    ensures Upper(Upper(c)) == Upper(c) && Lower(Lower(c)) == Lower(c)
  {
  }

  /** Every capital is the upper case of its own lower case, so the two
      mappings are inverse bijections between capitals and small letters. */
  lemma CasePartners(c: char)
    ensures IsUpper(c) ==> Upper(Lower(c)) == c
    ensures IsLower(c) ==> Lower(Upper(c)) == c
  {
  }

  /** `UnicodeString::toLower()`. */
  function ToLower(s: string): (r: string)
    ensures |r| == |s|
    ensures forall i {:trigger r[i]} :: 0 <= i < |s| ==> r[i] == Lower(s[i])
  {
    if s == [] then [] else [Lower(s[0])] + ToLower(s[1..])
  }

  /** Title-casing of `s` when a word starts at its first character (`open`)
      or not: a letter right after a non-letter is upper-cased, every other
      letter lower-cased, and non-letters are kept. */
  function TitleFrom(s: string, open: bool): (r: string)
    ensures |r| == |s|
  {
    if s == [] then []
    else [if open then Upper(s[0]) else Lower(s[0])] + TitleFrom(s[1..], !IsLetter(s[0]))
  }

  /** `UnicodeString::toTitle(0, Locale("ru_RU"))`: the first letter of every
      word is upper-cased, every other letter lower-cased. */
  function ToTitle(s: string): (r: string)
    ensures |r| == |s|
  {
    TitleFrom(s, true)
  }

  /** A string that title-casing leaves as it is. */
  predicate Titled(s: string) {
    ToTitle(s) == s
  }

  /** A string after which the next character starts a new word. */
  predicate EndsOpen(s: string) {
    |s| == 0 || !IsLetter(s[|s| - 1])
  }

  /** Whether a word starts right after `s`, when `open` says whether one
      starts at the beginning of `s`. */
  function OpenAfter(s: string, open: bool): bool {
    if s == [] then open else !IsLetter(s[|s| - 1])
  }

  /** A string ending with a hyphen or a space ends at a word boundary. */
  lemma EndsOpenAfterSeparator(a: string, sep: char)
    requires sep == '-' || sep == ' '
    ensures EndsOpen(a + [sep])
  {
    assert (a + [sep])[|a|] == sep;
  }

  /** Title-casing a concatenation is title-casing the pieces, the second one
      starting wherever the first one leaves off. */
  lemma {:induction false} TitleFromAppend(a: string, b: string, open: bool)
    ensures TitleFrom(a + b, open) == TitleFrom(a, open) + TitleFrom(b, OpenAfter(a, open))
  {
    if a == [] {
      assert a + b == b;
    } else {
      var next := !IsLetter(a[0]);
      assert (a + b)[0] == a[0];
      assert (a + b)[1..] == a[1..] + b;
      TitleFromAppend(a[1..], b, next);
      assert OpenAfter(a[1..], next) == OpenAfter(a, open);
    }
  }

  /** Title-casing twice is title-casing once. */
  lemma {:induction false} TitleFromIdempotent(s: string, open: bool)
    ensures TitleFrom(TitleFrom(s, open), open) == TitleFrom(s, open)
  {
    if s != [] {
      var c := if open then Upper(s[0]) else Lower(s[0]);
      var rest := TitleFrom(s[1..], !IsLetter(s[0]));
      UpperLowerStable(s[0]);
      assert ([c] + rest)[0] == c && ([c] + rest)[1..] == rest;
      TitleFromIdempotent(s[1..], !IsLetter(s[0]));
    }
  }

  /** Title-casing leaves a string without letters as it is. */
  lemma {:induction false} TitleFromNonLetters(b: string, open: bool)
    requires forall i :: 0 <= i < |b| ==> !IsLetter(b[i])
    ensures TitleFrom(b, open) == b
  {
    if b != [] {
      TitleFromNonLetters(b[1..], !IsLetter(b[0]));
    }
  }

  /** Title-casing twice is title-casing once. */
  lemma TitleIdempotent(s: string)
    ensures Titled(ToTitle(s))
  {
    TitleFromIdempotent(s, true);
  }

  /** When `a` ends at a word boundary, `a + b` is title-cased piece by piece. */
  lemma TitleAppend(a: string, b: string)
    requires EndsOpen(a)
    ensures ToTitle(a + b) == ToTitle(a) + ToTitle(b)
  {
    TitleFromAppend(a, b, true);
  }

  /** Appending characters that are not letters never changes how the rest is cased. */
  lemma TitleAppendNonLetters(a: string, b: string)
    requires forall i :: 0 <= i < |b| ==> !IsLetter(b[i])
    ensures ToTitle(a + b) == ToTitle(a) + b
  {
    TitleFromAppend(a, b, true);
    TitleFromNonLetters(b, OpenAfter(a, true));
  }

  /** A title-cased prefix that ends at a word boundary absorbs a re-title-casing
      of the whole string: only the appended part changes. */
  lemma RetitleAfterOpen(a: string, b: string)
    requires Titled(a) && EndsOpen(a)
    ensures ToTitle(a + b) == a + ToTitle(b)
    ensures Titled(a + ToTitle(b))
  {
    TitleAppend(a, b);
    TitleAppend(a, ToTitle(b));
    TitleIdempotent(b);
  }

  /** A titled string followed by separators is still titled. */
  lemma TitledAppendNonLetters(a: string, b: string)
    requires Titled(a)
    requires forall i :: 0 <= i < |b| ==> !IsLetter(b[i])
    ensures Titled(a + b)
  {
    TitleAppendNonLetters(a, b);
  }
}
