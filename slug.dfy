/**
 * The slug generator of the blog's route handlers (`generate_slug`).
 *
 * A title becomes a slug in four steps, in this order:
 *   1. every character that is not a word character, whitespace or `-` is deleted;
 *   2. whitespace is stripped from both ends;
 *   3. the result is lower-cased;
 *   4. every maximal run of `-` and whitespace becomes a single `-`.
 */
module Slug {

  /** Python's `\w`, restricted to ASCII: letters, digits and the underscore. */
  predicate IsWord(c: char) {
    ('a' <= c <= 'z') || ('A' <= c <= 'Z') || ('0' <= c <= '9') || c == '_'
  }

  /**
   * Python's `\s` on text, which is also what `str.strip()` removes:
   * tab, line feed, vertical tab, form feed, carriage return, the four
   * ASCII information separators, space and the Unicode space characters.
   */
  predicate IsSpace(c: char) {
    c == ' ' || ('\t' <= c <= '\r') || ('\U{1c}' <= c <= '\U{1f}')
    || c == '\U{85}' || c == '\U{a0}' || c == '\U{1680}'
    || ('\U{2000}' <= c <= '\U{200a}') || c == '\U{2028}' || c == '\U{2029}'
    || c == '\U{202f}' || c == '\U{205f}' || c == '\U{3000}'
  }

  /** The class `[\w\s-]`: what step 1 keeps. */
  predicate IsKept(c: char) {
    IsWord(c) || IsSpace(c) || c == '-'
  }

  /** The class `[-\s]`: what step 4 collapses. */
  predicate IsSeparator(c: char) {
    c == '-' || IsSpace(c)
  }

  predicate IsUpper(c: char) {
    'A' <= c <= 'Z'
  }

  /** A character that can appear in a slug: a lower-case word character or `-`. */
  predicate IsSlugChar(c: char) {
    (IsWord(c) && !IsUpper(c)) || c == '-'
  }

  predicate NotSeparator(c: char) {
    !IsSeparator(c)
  }

  /** The characters of `s` that satisfy `p`, in order. */
  function Filter(p: char -> bool, s: seq<char>): seq<char> {
    if s == [] then []
    else if p(s[0]) then [s[0]] + Filter(p, s[1..])
    else Filter(p, s[1..])
  }

  /** Step 1: `re.sub(r'[^\w\s-]', '', title)`. */
  function RemoveDisallowed(s: seq<char>): seq<char> {
    Filter(IsKept, s)
  }

  function StripLeading(s: seq<char>): seq<char> {
    if s != [] && IsSpace(s[0]) then StripLeading(s[1..]) else s
  }

  function StripTrailing(s: seq<char>): seq<char> {
    if s != [] && IsSpace(s[|s| - 1]) then StripTrailing(s[..|s| - 1]) else s
  }

  /** Step 2: `str.strip()` with no argument. */
  function Strip(s: seq<char>): seq<char> {
    StripTrailing(StripLeading(s))
  }

  function LowerChar(c: char): char {
    if IsUpper(c) then (c as int - 'A' as int + 'a' as int) as char else c
  }

  /** Step 3: `str.lower()` on the characters step 1 leaves. */
  function Lower(s: seq<char>): seq<char> {
    if s == [] then [] else [LowerChar(s[0])] + Lower(s[1..])
  }

  /** What is left of `s` once its leading run of separators is skipped. */
  function SkipSeparators(s: seq<char>): (r: seq<char>)
    ensures |r| <= |s|
  {
    if s != [] && IsSeparator(s[0]) then SkipSeparators(s[1..]) else s
  }

  /** No two adjacent hyphens. */
  predicate NoDoubleHyphen(s: seq<char>) {
    forall i :: 0 <= i < |s| - 1 ==> !(s[i] == '-' && s[i + 1] == '-')
  }

  /**
   * Step 4: `re.sub(r'[-\s]+', '-', s)`, as one left-to-right scan: a
   * separator followed by another separator is dropped, the last separator
   * of a run becomes `-`, and every other character is copied.
   * `CollapseMatchesRuns` shows this is the same as replacing each maximal
   * run, as the regular expression does.
   */
  function Collapse(s: seq<char>): seq<char> {
    if s == [] then []
    else if !IsSeparator(s[0]) then [s[0]] + Collapse(s[1..])
    else if |s| > 1 && IsSeparator(s[1]) then Collapse(s[1..])
    else "-" + Collapse(s[1..])
  }

  /**
   * The regular expression's own reading of step 4: find the leftmost
   * maximal run of separators, emit one `-` for it, continue after it.
   */
  function CollapseRuns(s: seq<char>): seq<char>
    decreases |s|
  {
    if s == [] then []
    else if IsSeparator(s[0]) then "-" + CollapseRuns(SkipSeparators(s[1..]))
    else [s[0]] + CollapseRuns(s[1..])
  }

  /** `generate_slug(title)`. */
  function GenerateSlug(title: seq<char>): seq<char> {
    Collapse(Lower(Strip(RemoveDisallowed(title))))
  }

  // ---------------------------------------------------------------------
  // Facts about the steps

  lemma {:induction false} FilterConcat(p: char -> bool, a: seq<char>, b: seq<char>)
    ensures Filter(p, a + b) == Filter(p, a) + Filter(p, b)
  {
    if a == [] {
      assert a + b == b;
    } else {
      assert (a + b)[0] == a[0];
      assert (a + b)[1..] == a[1..] + b;
      FilterConcat(p, a[1..], b);
    }
  }

  /** What `Filter` keeps satisfies `p`. */
  lemma {:induction false} FilterSatisfies(p: char -> bool, s: seq<char>)
    ensures forall i :: 0 <= i < |Filter(p, s)| ==> p(Filter(p, s)[i])
  {
    if s != [] {
      FilterSatisfies(p, s[1..]);
      if p(s[0]) {
        var t := Filter(p, s[1..]);
        assert forall i :: 1 <= i < |[s[0]] + t| ==> ([s[0]] + t)[i] == t[i - 1];
      }
    }
  }

  /** `StripLeading` removes a prefix of whitespace, and all of it. */
  lemma {:induction false} StripLeadingShape(s: seq<char>)
    ensures |StripLeading(s)| <= |s| && StripLeading(s) == s[|s| - |StripLeading(s)|..]
    ensures forall i :: 0 <= i < |s| - |StripLeading(s)| ==> IsSpace(s[i])
    ensures StripLeading(s) != [] ==> !IsSpace(StripLeading(s)[0])
  {
    if s != [] && IsSpace(s[0]) {
      StripLeadingShape(s[1..]);
      assert forall i :: 1 <= i < |s| ==> s[i] == s[1..][i - 1];
    }
  }

  /** `StripTrailing` removes a suffix of whitespace, and all of it. */
  lemma {:induction false} StripTrailingShape(s: seq<char>)
    ensures |StripTrailing(s)| <= |s| && StripTrailing(s) == s[..|StripTrailing(s)|]
    ensures forall i :: |StripTrailing(s)| <= i < |s| ==> IsSpace(s[i])
    ensures StripTrailing(s) != [] ==> !IsSpace(StripTrailing(s)[|StripTrailing(s)| - 1])
  {
    if s != [] && IsSpace(s[|s| - 1]) {
      StripTrailingShape(s[..|s| - 1]);
    }
  }

  /** `Lower` lower-cases character by character. */
  lemma {:induction false} LowerAt(s: seq<char>)
    ensures |Lower(s)| == |s|
    ensures forall i :: 0 <= i < |s| ==> Lower(s)[i] == LowerChar(s[i])
  {
    if s != [] {
      LowerAt(s[1..]);
      assert forall i :: 1 <= i < |s| ==> s[i] == s[1..][i - 1];
    }
  }

  lemma {:induction false} FilterNone(p: char -> bool, s: seq<char>)
    requires forall i :: 0 <= i < |s| ==> !p(s[i])
    ensures Filter(p, s) == []
  {
    if s != [] { FilterNone(p, s[1..]); }
  }

  lemma {:induction false} FilterAll(p: char -> bool, s: seq<char>)
    requires forall i :: 0 <= i < |s| ==> p(s[i])
    ensures Filter(p, s) == s
  {
    if s != [] { FilterAll(p, s[1..]); }
  }

  /** Step 1 keeps every word character, in order. */
  lemma {:induction false} RemoveDisallowedKeepsWords(s: seq<char>)
    ensures Filter(IsWord, RemoveDisallowed(s)) == Filter(IsWord, s)
  {
    if s != [] {
      RemoveDisallowedKeepsWords(s[1..]);
      if IsKept(s[0]) {
        assert ([s[0]] + RemoveDisallowed(s[1..]))[1..] == RemoveDisallowed(s[1..]);
      }
    }
  }

  lemma {:induction false} StripLeadingKeepsWords(s: seq<char>)
    ensures Filter(IsWord, StripLeading(s)) == Filter(IsWord, s)
  {
    if s != [] && IsSpace(s[0]) { StripLeadingKeepsWords(s[1..]); }
  }

  lemma {:induction false} StripTrailingKeepsWords(s: seq<char>)
    ensures Filter(IsWord, StripTrailing(s)) == Filter(IsWord, s)
  {
    if s != [] && IsSpace(s[|s| - 1]) {
      var s' := s[..|s| - 1];
      StripTrailingKeepsWords(s');
      assert s == s' + [s[|s| - 1]];
      FilterConcat(IsWord, s', [s[|s| - 1]]);
    }
  }

  /** Step 2 removes only whitespace, so it keeps every word character. */
  lemma StripKeepsWords(s: seq<char>)
    ensures Filter(IsWord, Strip(s)) == Filter(IsWord, s)
  {
    StripLeadingKeepsWords(s);
    StripTrailingKeepsWords(StripLeading(s));
  }

  /** Every character of `Strip(s)` is a character of `s`. */
  lemma StripChars(s: seq<char>)
    ensures |Strip(s)| <= |StripLeading(s)| <= |s|
    ensures forall i :: 0 <= i < |Strip(s)| ==> Strip(s)[i] == s[|s| - |StripLeading(s)| + i]
  {
    var l := StripLeading(s);
    var m := StripTrailing(l);
    StripLeadingShape(s);
    StripTrailingShape(l);
    assert forall i :: 0 <= i < |l| ==> l[i] == s[|s| - |l| + i];
    assert forall i :: 0 <= i < |m| ==> m[i] == l[i];
  }

  /** Step 3 maps word characters to word characters and nothing else to one. */
  lemma {:induction false} LowerKeepsWords(s: seq<char>)
    ensures Filter(IsWord, Lower(s)) == Lower(Filter(IsWord, s))
  {
    if s != [] {
      LowerKeepsWords(s[1..]);
      assert ([LowerChar(s[0])] + Lower(s[1..]))[1..] == Lower(s[1..]);
    }
  }

  /** On text made of kept characters, the word characters are the non-separators. */
  lemma {:induction false} WordsAreNonSeparators(s: seq<char>)
    requires forall i :: 0 <= i < |s| ==> IsKept(s[i])
    ensures Filter(IsWord, s) == Filter(NotSeparator, s)
  {
    if s != [] { WordsAreNonSeparators(s[1..]); }
  }

  lemma {:induction false} StripLeadingOfSpaces(p: seq<char>, s: seq<char>)
    requires forall i :: 0 <= i < |p| ==> IsSpace(p[i])
    ensures StripLeading(p + s) == StripLeading(s)
  {
    if p == [] {
      assert p + s == s;
    } else {
      assert (p + s)[0] == p[0];
      assert (p + s)[1..] == p[1..] + s;
      StripLeadingOfSpaces(p[1..], s);
    }
  }

  lemma {:induction false} StripTrailingOfSpaces(s: seq<char>, q: seq<char>)
    requires forall i :: 0 <= i < |q| ==> IsSpace(q[i])
    ensures StripTrailing(s + q) == StripTrailing(s)
  {
    if q == [] {
      assert s + q == s;
    } else {
      var q' := q[..|q| - 1];
      assert (s + q)[|s + q| - 1] == q[|q| - 1];
      assert (s + q)[..|s + q| - 1] == s + q';
      StripTrailingOfSpaces(s, q');
    }
  }

  /** Whitespace appended at the end survives `StripLeading` unless everything is whitespace. */
  lemma {:induction false} StripLeadingAppend(s: seq<char>, q: seq<char>)
    requires forall i :: 0 <= i < |q| ==> IsSpace(q[i])
    ensures StripLeading(s + q) == if StripLeading(s) == [] then [] else StripLeading(s) + q
  {
    if s == [] {
      assert s + q == q + [];
      StripLeadingOfSpaces(q, []);
      assert StripLeading([]) == [];
    } else if IsSpace(s[0]) {
      assert (s + q)[0] == s[0];
      assert (s + q)[1..] == s[1..] + q;
      StripLeadingAppend(s[1..], q);
    } else {
      assert (s + q)[0] == s[0];
    }
  }

  /** `strip()` ignores any whitespace added at either end. */
  lemma StripPadded(p: seq<char>, s: seq<char>, q: seq<char>)
    requires forall i :: 0 <= i < |p| ==> IsSpace(p[i])
    requires forall i :: 0 <= i < |q| ==> IsSpace(q[i])
    ensures Strip(p + s + q) == Strip(s)
  {
    assert p + s + q == p + (s + q);
    StripLeadingOfSpaces(p, s + q);
    StripLeadingAppend(s, q);
    if StripLeading(s) != [] {
      StripTrailingOfSpaces(StripLeading(s), q);
    }
  }

  /** `SkipSeparators` removes a prefix of separators, and all of them. */
  lemma {:induction false} SkipSeparatorsShape(s: seq<char>)
    ensures SkipSeparators(s) == s[|s| - |SkipSeparators(s)|..]
    ensures forall i :: 0 <= i < |s| - |SkipSeparators(s)| ==> IsSeparator(s[i])
    ensures SkipSeparators(s) != [] ==> !IsSeparator(SkipSeparators(s)[0])
  {
    if s != [] && IsSeparator(s[0]) {
      SkipSeparatorsShape(s[1..]);
      assert forall i :: 1 <= i < |s| ==> s[i] == s[1..][i - 1];
    }
  }

  /** Skipping separators loses no other character. */
  lemma {:induction false} SkipSeparatorsKeepsNonSeparators(s: seq<char>)
    ensures Filter(NotSeparator, SkipSeparators(s)) == Filter(NotSeparator, s)
  {
    if s != [] && IsSeparator(s[0]) { SkipSeparatorsKeepsNonSeparators(s[1..]); }
  }

  /**
   * What step 4 produces: it is empty exactly when its input is, starts
   * with `-` exactly when the input starts with a separator, holds only `-`
   * and characters of the input that are not separators, has no two
   * adjacent hyphens, and keeps every non-separator of the input, in order.
   */
  lemma {:induction false} CollapseShape(s: seq<char>)
    ensures (Collapse(s) == []) == (s == [])
    ensures Collapse(s) != [] ==> (Collapse(s)[0] == '-' <==> IsSeparator(s[0]))
    ensures forall i :: 0 <= i < |Collapse(s)| ==>
      Collapse(s)[i] == '-' || (NotSeparator(Collapse(s)[i]) && Collapse(s)[i] in s)
    ensures NoDoubleHyphen(Collapse(s))
    ensures Filter(NotSeparator, Collapse(s)) == Filter(NotSeparator, s)
  {
    if s != [] {
      var r := Collapse(s);
      var t := Collapse(s[1..]);
      CollapseShape(s[1..]);
      assert forall x :: x in s[1..] ==> x in s;
      if !IsSeparator(s[0]) {
        assert r == [s[0]] + t;
        assert forall i :: 1 <= i < |r| ==> r[i] == t[i - 1];
      } else if |s| > 1 && IsSeparator(s[1]) {
        assert r == t;
      } else {
        assert r == "-" + t;
        assert forall i :: 1 <= i < |r| ==> r[i] == t[i - 1];
      }
    }
  }

  /** Text with no whitespace and no `--` is left alone by step 4. */
  lemma {:induction false} CollapseFixed(s: seq<char>)
    requires forall i :: 0 <= i < |s| ==> !IsSpace(s[i])
    requires NoDoubleHyphen(s)
    ensures Collapse(s) == s
  {
    if s != [] {
      CollapseFixed(s[1..]);
      if |s| > 1 { assert !(s[0] == '-' && s[1] == '-'); }
    }
  }

  /** A separator followed by a (possibly empty) run turns, with that run, into one `-`. */
  lemma {:induction false} CollapseSkipsRun(s: seq<char>)
    requires s != [] && IsSeparator(s[0])
    ensures Collapse(s) == "-" + Collapse(SkipSeparators(s[1..]))
    decreases |s|
  {
    if |s| > 1 && IsSeparator(s[1]) {
      CollapseSkipsRun(s[1..]);
      assert s[1..][1..] == s[2..];
    }
  }

  /** The scan and the regular expression's run-by-run replacement agree. */
  lemma {:induction false} CollapseMatchesRuns(s: seq<char>)
    ensures Collapse(s) == CollapseRuns(s)
    decreases |s|
  {
    if s != [] {
      if IsSeparator(s[0]) {
        CollapseSkipsRun(s);
        CollapseMatchesRuns(SkipSeparators(s[1..]));
      } else {
        CollapseMatchesRuns(s[1..]);
      }
    }
  }

  // ---------------------------------------------------------------------
  // Properties of generate_slug

  /** Text made of separators and lower-case word characters: what step 4 receives. */
  predicate Prepared(s: seq<char>) {
    forall i :: 0 <= i < |s| ==> IsSeparator(s[i]) || IsSlugChar(s[i])
  }

  lemma StripKeepsKept(k: seq<char>)
    requires forall i :: 0 <= i < |k| ==> IsKept(k[i])
    ensures forall i :: 0 <= i < |Strip(k)| ==> IsKept(Strip(k)[i])
  {
    var m := Strip(k);
    StripChars(k);
    StripLeadingShape(k);
    forall i | 0 <= i < |m| ensures IsKept(m[i]) {
      assert m[i] == k[|k| - |StripLeading(k)| + i];
    }
  }

  /** A kept character, lower-cased, is a separator or a slug character. */
  lemma LowerCharPrepares(c: char)
    requires IsKept(c)
    ensures IsSeparator(LowerChar(c)) || IsSlugChar(LowerChar(c))
  {
  }

  lemma LowerPrepares(m: seq<char>)
    requires forall i :: 0 <= i < |m| ==> IsKept(m[i])
    ensures Prepared(Lower(m))
  {
    var x := Lower(m);
    LowerAt(m);
    forall i | 0 <= i < |x| ensures IsSeparator(x[i]) || IsSlugChar(x[i]) {
      LowerCharPrepares(m[i]);
    }
  }

  /** The text handed to step 4 is made of kept characters, lower-cased. */
  lemma BeforeCollapse(title: seq<char>)
    ensures Prepared(Lower(Strip(RemoveDisallowed(title))))
  {
    FilterSatisfies(IsKept, title);
    StripKeepsKept(RemoveDisallowed(title));
    LowerPrepares(Strip(RemoveDisallowed(title)));
  }

  /**
   * Every character of a slug is a lower-case ASCII letter, a digit, `_`
   * or `-`; in particular no whitespace survives.
   */
  lemma SlugAlphabet(title: seq<char>)
    ensures forall i :: 0 <= i < |GenerateSlug(title)| ==> IsSlugChar(GenerateSlug(title)[i])
    ensures forall i :: 0 <= i < |GenerateSlug(title)| ==> !IsSpace(GenerateSlug(title)[i])
  {
    var x := Lower(Strip(RemoveDisallowed(title)));
    var r := GenerateSlug(title);
    BeforeCollapse(title);
    CollapseShape(x);
    forall i | 0 <= i < |r| ensures IsSlugChar(r[i]) {
      if r[i] != '-' {
        var j :| 0 <= j < |x| && x[j] == r[i];
      }
    }
  }

  /** A slug never holds two adjacent hyphens. */
  lemma SlugNoDoubleHyphen(title: seq<char>)
    ensures NoDoubleHyphen(GenerateSlug(title))
  {
    CollapseShape(Lower(Strip(RemoveDisallowed(title))));
  }

  /** Text that can be a slug: slug characters only, no two adjacent hyphens. */
  predicate IsSlug(s: seq<char>) {
    (forall i :: 0 <= i < |s| ==> IsSlugChar(s[i])) && NoDoubleHyphen(s)
  }

  /** Every slug has that shape. */
  lemma SlugIsSlug(title: seq<char>)
    ensures IsSlug(GenerateSlug(title))
  {
    SlugAlphabet(title);
    SlugNoDoubleHyphen(title);
  }

  /** A title of that shape is its own slug, and no other title is. */
  lemma SlugFixedPoints(title: seq<char>)
    ensures GenerateSlug(title) == title <==> IsSlug(title)
  {
    SlugIsSlug(title);
    if IsSlug(title) {
      var s := title;
      SlugCharsClasses(s);
      FilterAll(IsKept, s);
      StripUnpadded(s);
      LowerNoUpper(s);
      CollapseFixed(s);
    }
  }

  lemma SlugCharClasses(c: char)
    requires IsSlugChar(c)
    ensures IsKept(c) && !IsUpper(c) && !IsSpace(c)
  {
  }

  lemma SlugCharsClasses(s: seq<char>)
    requires forall i :: 0 <= i < |s| ==> IsSlugChar(s[i])
    ensures forall i :: 0 <= i < |s| ==> IsKept(s[i]) && !IsUpper(s[i]) && !IsSpace(s[i])
  {
    forall i | 0 <= i < |s| ensures IsKept(s[i]) && !IsUpper(s[i]) && !IsSpace(s[i]) {
      SlugCharClasses(s[i]);
    }
  }

  /** A slug fed back in as a title gives itself back. */
  lemma SlugIdempotent(title: seq<char>)
    ensures GenerateSlug(GenerateSlug(title)) == GenerateSlug(title)
  {
    SlugIsSlug(title);
    SlugFixedPoints(GenerateSlug(title));
  }

  /** Whitespace around a title does not change its slug. */
  lemma SlugIgnoresPadding(p: seq<char>, title: seq<char>, q: seq<char>)
    requires forall i :: 0 <= i < |p| ==> IsSpace(p[i])
    requires forall i :: 0 <= i < |q| ==> IsSpace(q[i])
    ensures GenerateSlug(p + title + q) == GenerateSlug(title)
  {
    FilterConcat(IsKept, p + title, q);
    FilterConcat(IsKept, p, title);
    FilterAll(IsKept, p);
    FilterAll(IsKept, q);
    StripPadded(p, RemoveDisallowed(title), q);
  }

  /** In particular one space on each side, as a form field often carries. */
  lemma SlugIgnoresSpaces(title: seq<char>)
    ensures GenerateSlug(" " + title + " ") == GenerateSlug(title)
  {
    SlugIgnoresPadding(" ", title, " ");
  }

  /** Removing the disallowed characters first does not change the slug. */
  lemma SlugIgnoresDisallowed(title: seq<char>)
    ensures GenerateSlug(RemoveDisallowed(title)) == GenerateSlug(title)
  {
    FilterSatisfies(IsKept, title);
    FilterAll(IsKept, RemoveDisallowed(title));
  }

  /**
   * The word characters of a slug are exactly the word characters of the
   * title, lower-cased, in their original order: nothing else is lost or
   * invented, only separators change.
   */
  lemma SlugWords(title: seq<char>)
    ensures Filter(IsWord, GenerateSlug(title)) == Lower(Filter(IsWord, title))
  {
    var k := RemoveDisallowed(title);
    var m := Strip(k);
    var x := Lower(m);
    RemoveDisallowedKeepsWords(title);
    StripKeepsWords(k);
    LowerKeepsWords(m);
    BeforeCollapse(title);
    WordsAreNonSeparators(x);
    CollapseShape(x);
    SlugAlphabet(title);
    WordsAreNonSeparators(GenerateSlug(title));
  }

  /** The slug is empty exactly when the title has no word character and no `-`. */
  lemma SlugEmpty(title: seq<char>)
    ensures GenerateSlug(title) == [] <==> NothingKeepable(title)
  {
    var k := RemoveDisallowed(title);
    var l := StripLeading(k);
    RemoveDisallowedOnlySpaces(title);
    StripLeadingShape(k);
    StripTrailingShape(l);
    LowerAt(Strip(k));
    CollapseShape(Lower(Strip(k)));
    assert l != [] ==> !IsSpace(l[0]);
    assert forall i :: 0 <= i < |l| ==> l[i] == k[|k| - |l| + i];
  }

  predicate AllSpace(s: seq<char>) {
    forall i :: 0 <= i < |s| ==> IsSpace(s[i])
  }

  /** No word character and no hyphen. */
  predicate NothingKeepable(s: seq<char>) {
    forall i :: 0 <= i < |s| ==> !IsWord(s[i]) && s[i] != '-'
  }

  /** Step 1 leaves only whitespace exactly when there is no word character and no `-`. */
  lemma {:induction false} RemoveDisallowedOnlySpaces(s: seq<char>)
    ensures AllSpace(RemoveDisallowed(s)) <==> NothingKeepable(s)
  {
    if s != [] {
      RemoveDisallowedOnlySpaces(s[1..]);
      var r := RemoveDisallowed(s);
      var t := RemoveDisallowed(s[1..]);
      assert forall i :: 1 <= i < |s| ==> s[i] == s[1..][i - 1];
      assert NothingKeepable(s) <==> (!IsWord(s[0]) && s[0] != '-') && NothingKeepable(s[1..]);
      if IsKept(s[0]) {
        assert r == [s[0]] + t;
        assert r[0] == s[0];
        assert forall i :: 1 <= i < |r| ==> r[i] == t[i - 1];
        assert forall i :: 0 <= i < |t| ==> t[i] == r[i + 1];
        assert AllSpace(r) <==> IsSpace(s[0]) && AllSpace(t);
      } else {
        assert r == t;
      }
    }
  }


  // ---------------------------------------------------------------------
  // Each step on a prefix

  /** Step 1 keeps a prefix made of kept characters. */
  lemma RemoveDisallowedKeepsPrefix(a: seq<char>, b: seq<char>)
    requires forall i :: 0 <= i < |a| ==> IsKept(a[i])
    ensures RemoveDisallowed(a + b) == a + RemoveDisallowed(b)
  {
    FilterConcat(IsKept, a, b);
    FilterAll(IsKept, a);
  }

  /** Step 1 deletes a prefix of disallowed characters. */
  lemma RemoveDisallowedDropsPrefix(a: seq<char>, b: seq<char>)
    requires forall i :: 0 <= i < |a| ==> !IsKept(a[i])
    ensures RemoveDisallowed(a + b) == RemoveDisallowed(b)
  {
    FilterConcat(IsKept, a, b);
    FilterNone(IsKept, a);
  }

  /** Step 2 leaves text alone that has no whitespace at either end. */
  lemma StripUnpadded(s: seq<char>)
    requires s != [] ==> !IsSpace(s[0]) && !IsSpace(s[|s| - 1])
    ensures Strip(s) == s
  {
  }

  /** Step 3 works character by character, so it distributes over `+`. */
  lemma {:induction false} LowerConcat(a: seq<char>, b: seq<char>)
    ensures Lower(a + b) == Lower(a) + Lower(b)
  {
    if a == [] {
      assert a + b == b;
    } else {
      assert (a + b)[0] == a[0];
      assert (a + b)[1..] == a[1..] + b;
      LowerConcat(a[1..], b);
    }
  }

  /** Step 3 leaves text without capitals alone. */
  lemma LowerNoUpper(s: seq<char>)
    requires forall i :: 0 <= i < |s| ==> !IsUpper(s[i])
    ensures Lower(s) == s
  {
    LowerAt(s);
  }

  /** Trailing whitespace is stripped only from the part that follows a visible character. */
  lemma {:induction false} StripTrailingKeepsPrefix(y: seq<char>, x: seq<char>)
    requires x != [] && !IsSpace(x[0])
    ensures StripTrailing(y + x) == y + StripTrailing(x)
    decreases |x|
  {
    var s := y + x;
    if IsSpace(s[|s| - 1]) {
      assert s[|s| - 1] == x[|x| - 1];
      assert |x| > 1;
      assert s[..|s| - 1] == y + x[..|x| - 1];
      StripTrailingKeepsPrefix(y, x[..|x| - 1]);
    }
  }

  /** Step 3 turns a word into a word without capitals. */
  lemma LowerOfWord(w: seq<char>)
    requires forall i :: 0 <= i < |w| ==> IsWord(w[i])
    ensures |Lower(w)| == |w|
    ensures forall i :: 0 <= i < |w| ==> IsWord(Lower(w)[i]) && !IsUpper(Lower(w)[i])
    ensures forall i :: 0 <= i < |w| ==> !IsSeparator(Lower(w)[i])
  {
    LowerAt(w);
  }

  /** Step 3 keeps a word character at the front a word character. */
  lemma LowerOfWordHead(t: seq<char>)
    requires t != [] && IsWord(t[0])
    ensures Lower(t) != [] && !IsSeparator(Lower(t)[0])
  {
  }

  /** Step 3 leaves a run of separators alone. */
  lemma LowerOfSeparators(r: seq<char>)
    requires forall i :: 0 <= i < |r| ==> IsSeparator(r[i])
    ensures Lower(r) == r
  {
    LowerNoUpper(r);
  }

  /** Step 4 leaves a word alone. */
  lemma CollapseOfWord(w: seq<char>)
    requires forall i :: 0 <= i < |w| ==> IsWord(w[i])
    ensures Collapse(w) == w
  {
    CollapseKeepsWord(w, []);
    assert w + [] == w;
  }

  /** `GenerateSlug` read off its stages. */
  lemma SlugByStages(title: seq<char>, k: seq<char>, l: seq<char>)
    requires Strip(RemoveDisallowed(title)) == k
    requires Lower(k) == l
    ensures GenerateSlug(title) == Collapse(l)
  {
  }

  /** A title that is a single word slugs to that word in lower case. */
  lemma SlugOfWord(w: seq<char>)
    requires forall i :: 0 <= i < |w| ==> IsWord(w[i])
    ensures GenerateSlug(w) == Lower(w)
  {
    RemoveDisallowedKeepsPrefix(w, []);
    assert w + [] == w;
    StripUnpadded(w);
    LowerOfWord(w);
    CollapseOfWord(Lower(w));
    SlugByStages(w, w, Lower(w));
  }

  /** Steps 1 and 2 on a word, a run of separators and text starting with a word character. */
  lemma PrepareWordThenRun(w: seq<char>, r: seq<char>, b: seq<char>)
    requires w != [] && forall i :: 0 <= i < |w| ==> IsWord(w[i])
    requires forall i :: 0 <= i < |r| ==> IsSeparator(r[i])
    requires b != [] && IsWord(b[0])
    ensures Strip(RemoveDisallowed(w + r + b)) == w + r + Strip(RemoveDisallowed(b))
    ensures Strip(RemoveDisallowed(b)) != [] && Strip(RemoveDisallowed(b))[0] == b[0]
  {
    var x := RemoveDisallowed(b);
    assert forall i :: 0 <= i < |w + r| ==> IsKept((w + r)[i]);
    RemoveDisallowedKeepsPrefix(w + r, b);
    assert b == [b[0]] + b[1..];
    RemoveDisallowedKeepsPrefix([b[0]], b[1..]);
    assert x[0] == b[0];
    var k := w + r + x;
    assert k[0] == w[0];
    assert StripLeading(k) == k;
    assert StripLeading(x) == x;
    StripTrailingKeepsPrefix(w + r, x);
    StripTrailingShape(x);
    assert |StripTrailing(x)| > 0;
  }

  /**
   * A word, then a run of spaces and hyphens, then text starting with a word
   * character: the slug is the word in lower case, one hyphen, and the slug
   * of the rest.
   */
  lemma SlugOfWordThenRun(w: seq<char>, r: seq<char>, b: seq<char>)
    requires w != [] && forall i :: 0 <= i < |w| ==> IsWord(w[i])
    requires r != [] && forall i :: 0 <= i < |r| ==> IsSeparator(r[i])
    requires b != [] && IsWord(b[0])
    ensures GenerateSlug(w + r + b) == Lower(w) + "-" + GenerateSlug(b)
  {
    PrepareWordThenRun(w, r, b);
    var t := Strip(RemoveDisallowed(b));
    LowerConcat(w + r, t);
    LowerConcat(w, r);
    LowerOfSeparators(r);
    LowerOfWord(w);
    LowerOfWordHead(t);
    CollapseWordRun(Lower(w), r, Lower(t));
    SlugByStages(w + r + b, w + r + t, Lower(w) + r + Lower(t));
    SlugByStages(b, t, Lower(t));
  }

  /** Step 4 copies a prefix that holds no separator. */
  lemma {:induction false} CollapseKeepsWord(a: seq<char>, b: seq<char>)
    requires forall i :: 0 <= i < |a| ==> !IsSeparator(a[i])
    ensures Collapse(a + b) == a + Collapse(b)
  {
    if a == [] {
      assert a + b == b;
    } else {
      assert (a + b)[0] == a[0];
      assert (a + b)[1..] == a[1..] + b;
      CollapseKeepsWord(a[1..], b);
    }
  }

  /** Step 4 turns a whole run of separators into a single hyphen. */
  lemma {:induction false} CollapseJoinsRun(r: seq<char>, b: seq<char>)
    requires r != [] && forall i :: 0 <= i < |r| ==> IsSeparator(r[i])
    requires b != [] ==> !IsSeparator(b[0])
    ensures Collapse(r + b) == "-" + Collapse(b)
  {
    assert (r + b)[0] == r[0];
    assert (r + b)[1..] == r[1..] + b;
    if |r| > 1 {
      assert (r + b)[1] == r[1];
      CollapseJoinsRun(r[1..], b);
    } else {
      assert r[1..] + b == b;
    }
  }

  /** Step 4 on a word, a run of separators and the rest. */
  lemma CollapseWordRun(a: seq<char>, r: seq<char>, b: seq<char>)
    requires forall i :: 0 <= i < |a| ==> !IsSeparator(a[i])
    requires r != [] && forall i :: 0 <= i < |r| ==> IsSeparator(r[i])
    requires b != [] ==> !IsSeparator(b[0])
    ensures Collapse(a + r + b) == a + "-" + Collapse(b)
  {
    AppendAssociates(a, r, b);
    AppendAssociates(a, "-", Collapse(b));
    CollapseKeepsWord(a, r + b);
    CollapseJoinsRun(r, b);
  }

  lemma AppendAssociates(a: seq<char>, b: seq<char>, c: seq<char>)
    ensures a + b + c == a + (b + c)
  {
  }

  // ---------------------------------------------------------------------
  // Worked examples

  /** A title of punctuation only gives the empty slug. */
  lemma SlugOfPunctuation()
    ensures GenerateSlug("!!!") == ""
  {
    SlugEmpty("!!!");
  }

  // The examples below split each literal into words and runs. Every
  // equation between literals is proved on its own, so that the lemmas
  // about the steps are applied with nothing else to compute.

  lemma GreetingText()
    ensures "Hello, World!" == "Hello" + ("," + (" World" + "!"))
    ensures "Hello" + (" World" + []) == "Hello World"
    ensures "Hello World" == "Hello" + " " + "World"
    ensures "hello" + "-" + "world" == "hello-world"
  {
  }

  lemma GreetingChars()
    ensures forall i :: 0 <= i < |"Hello"| ==> IsWord("Hello"[i])
    ensures forall i :: 0 <= i < |"World"| ==> IsWord("World"[i])
    ensures forall i :: 0 <= i < |" World"| ==> IsKept(" World"[i])
    ensures forall i :: 0 <= i < |","| ==> !IsKept(","[i])
    ensures forall i :: 0 <= i < |"!"| ==> !IsKept("!"[i])
    ensures forall i :: 0 <= i < |" "| ==> IsSeparator(" "[i])
  {
  }

  lemma LowerHello()
    ensures Lower("Hello") == "hello"
  {
    LowerAt("Hello");
  }

  lemma LowerWorld()
    ensures Lower("World") == "world"
  {
    LowerAt("World");
  }

  /** Step 1 on the greeting: the comma and the exclamation mark go. */
  lemma GreetingRemoved()
    ensures RemoveDisallowed("Hello, World!") == "Hello World"
  {
    GreetingText();
    GreetingChars();
    RemoveDisallowedKeepsPrefix("Hello", "," + (" World" + "!"));
    RemoveDisallowedDropsPrefix(",", " World" + "!");
    RemoveDisallowedKeepsPrefix(" World", "!");
    FilterNone(IsKept, "!");
  }

  lemma GreetingSlug()
    ensures GenerateSlug("Hello World") == "hello-world"
  {
    GreetingText();
    GreetingChars();
    LowerHello();
    LowerWorld();
    SlugOfWord("World");
    SlugOfWordThenRun("Hello", " ", "World");
  }

  /** Punctuation is dropped and the space between the words becomes a hyphen. */
  lemma SlugOfGreeting()
    ensures GenerateSlug("Hello, World!") == "hello-world"
  {
    GreetingRemoved();
    SlugIgnoresDisallowed("Hello, World!");
    GreetingSlug();
  }

  lemma SpacedText()
    ensures "and--dashes" == "and" + "--" + "dashes"
    ensures "and" + "-" + "dashes" == "and-dashes"
    ensures "Spaces--and--dashes" == "Spaces" + "--" + "and--dashes"
    ensures "spaces" + "-" + "and-dashes" == "spaces-and-dashes"
  {
  }

  lemma SpacedOuterText()
    ensures "Multiple   Spaces--and--dashes" == "Multiple" + "   " + "Spaces--and--dashes"
    ensures "multiple" + "-" + "spaces-and-dashes" == "multiple-spaces-and-dashes"
  {
  }

  lemma SpacedPaddingText()
    ensures "  Multiple   Spaces--and--dashes  " == "  " + "Multiple   Spaces--and--dashes" + "  "
  {
  }

  lemma SpacedChars()
    ensures forall i :: 0 <= i < |"and"| ==> IsWord("and"[i]) && !IsUpper("and"[i])
    ensures forall i :: 0 <= i < |"dashes"| ==> IsWord("dashes"[i]) && !IsUpper("dashes"[i])
    ensures forall i :: 0 <= i < |"Spaces"| ==> IsWord("Spaces"[i])
    ensures forall i :: 0 <= i < |"Multiple"| ==> IsWord("Multiple"[i])
    ensures forall i :: 0 <= i < |"--"| ==> IsSeparator("--"[i])
    ensures forall i :: 0 <= i < |"   "| ==> IsSeparator("   "[i])
    ensures forall i :: 0 <= i < |"  "| ==> IsSpace("  "[i])
  {
  }

  lemma LowerSpaces()
    ensures Lower("Spaces") == "spaces"
  {
    LowerAt("Spaces");
  }

  lemma LowerMultiple()
    ensures Lower("Multiple") == "multiple"
  {
    LowerAt("Multiple");
  }

  lemma SpacedStep1()
    ensures GenerateSlug("and--dashes") == "and-dashes"
  {
    SpacedText();
    SpacedChars();
    LowerNoUpper("and");
    LowerNoUpper("dashes");
    SlugOfWord("dashes");
    SlugOfWordThenRun("and", "--", "dashes");
  }

  lemma SpacedStep2()
    ensures GenerateSlug("Spaces--and--dashes") == "spaces-and-dashes"
  {
    SpacedText();
    SpacedChars();
    LowerSpaces();
    SpacedStep1();
    SlugOfWordThenRun("Spaces", "--", "and--dashes");
  }

  lemma SpacedStep3()
    ensures GenerateSlug("Multiple   Spaces--and--dashes") == "multiple-spaces-and-dashes"
  {
    SpacedOuterText();
    SpacedChars();
    LowerMultiple();
    SpacedStep2();
    SlugOfWordThenRun("Multiple", "   ", "Spaces--and--dashes");
  }

  /** Runs of spaces and hyphens become single hyphens; padding disappears. */
  lemma SlugOfSpacedTitle()
    ensures GenerateSlug("  Multiple   Spaces--and--dashes  ") == "multiple-spaces-and-dashes"
  {
    SpacedPaddingText();
    SpacedChars();
    SlugIgnoresPadding("  ", "Multiple   Spaces--and--dashes", "  ");
    SpacedStep3();
  }

  /** A title with no space and no punctuation keeps its underscores. */
  lemma SlugKeepsUnderscore()
    ensures GenerateSlug("my_first_post") == "my_first_post"
  {
    assert IsSlug("my_first_post");
    SlugFixedPoints("my_first_post");
  }

  /** A hyphen at either end is not removed: `strip()` removes whitespace only. */
  lemma SlugKeepsEndHyphens()
    ensures GenerateSlug("-draft-") == "-draft-"
  {
    assert IsSlug("-draft-");
    SlugFixedPoints("-draft-");
  }
}
