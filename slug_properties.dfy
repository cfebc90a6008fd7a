/**
 * Properties of the slug deriver: what each stage keeps and deletes, how the
 * hyphens of a slug correspond to the white-space runs of its input, the
 * missing trim step, and what happens when a slug is fed back in.
 */
module SlugProperties {
  import opened CharClasses
  import opened SlugDeriver

  /* ---------- reference definitions ---------- */

  /** The word characters of `s`, in order. */
  function WordChars(s: string): string {
    if s == [] then []
    else if IsWordChar(s[0]) then [s[0]] + WordChars(s[1..])
    else WordChars(s[1..])
  }

  /** `s` with every `-` deleted. */
  function RemoveHyphens(s: string): (r: string)
    ensures '-' !in r
    ensures |r| + multiset(s)['-'] == |s|
  {
    if s == [] then []
    else
      assert s == [s[0]] + s[1..];
      if s[0] == '-' then RemoveHyphens(s[1..]) else [s[0]] + RemoveHyphens(s[1..])
  }

  /**
   * The number of positions of `s` where a maximal run of white space starts;
   * `afterSpace` says whether the character before `s` was white space.
   */
  function RunStarts(s: string, afterSpace: bool): nat {
    if s == [] then 0
    else (if IsSpace(s[0]) && !afterSpace then 1 else 0) + RunStarts(s[1..], IsSpace(s[0]))
  }

  /** The number of maximal white-space runs in `s`. */
  function SpaceRuns(s: string): nat {
    RunStarts(s, false)
  }

  /** No two adjacent hyphens. */
  predicate NoDoubleHyphen(s: string) {
    forall i :: 0 <= i < |s| - 1 ==> !(s[i] == '-' && s[i + 1] == '-')
  }

  /* ---------- stages distribute over concatenation ---------- */

  lemma {:induction false} NfdAppend(a: string, b: string)
    ensures Nfd(a + b) == Nfd(a) + Nfd(b)
  {
    if a == [] {
      assert a + b == b;
    } else {
      assert (a + b)[0] == a[0];
      assert (a + b)[1..] == a[1..] + b;
      NfdAppend(a[1..], b);
    }
  }

  lemma {:induction false} StripMarksAppend(a: string, b: string)
    ensures StripMarks(a + b) == StripMarks(a) + StripMarks(b)
  {
    if a == [] {
      assert a + b == b;
    } else {
      assert (a + b)[1..] == a[1..] + b;
      StripMarksAppend(a[1..], b);
    }
  }

  lemma {:induction false} LowerAppend(a: string, b: string)
    ensures Lower(a + b) == Lower(a) + Lower(b)
  {
    if a == [] {
      assert a + b == b;
    } else {
      assert (a + b)[1..] == a[1..] + b;
      LowerAppend(a[1..], b);
    }
  }

  lemma {:induction false} StripNonWordAppend(a: string, b: string)
    ensures StripNonWord(a + b) == StripNonWord(a) + StripNonWord(b)
  {
    if a == [] {
      assert a + b == b;
    } else {
      assert (a + b)[1..] == a[1..] + b;
      StripNonWordAppend(a[1..], b);
    }
  }

  lemma FilteredAppend(a: string, b: string)
    ensures Filtered(a + b) == Filtered(a) + Filtered(b)
  {
    NfdAppend(a, b);
    StripMarksAppend(Nfd(a), Nfd(b));
    LowerAppend(StripMarks(Nfd(a)), StripMarks(Nfd(b)));
    StripNonWordAppend(Lower(StripMarks(Nfd(a))), Lower(StripMarks(Nfd(b))));
  }

  /** A white-space character passes the first four stages unchanged. */
  lemma FilteredSpace(c: char)
    requires IsSpace(c)
    ensures Filtered([c]) == [c]
  {
    assert Nfd([c]) == [c] by {
      assert [c][1..] == [];
    }
    assert StripMarks([c]) == [c] by {
      assert [c][1..] == [];
    }
    assert Lower([c]) == [c];
    assert StripNonWord([c]) == [c] by {
      assert [c][1..] == [];
    }
  }

  /* ---------- what one character becomes ---------- */

  /** An upper-case ASCII letter comes out lower-cased. */
  lemma FilteredOfUpper(c: char)
    requires IsAsciiUpper(c)
    ensures Filtered([c]) == [(c as int + 32) as char]
  {
    assert [c][1..] == [];
    assert Nfd([c]) == [c];
    assert StripMarks([c]) == [c];
    assert Lower([c]) == [ToLower(c)];
    assert [ToLower(c)][1..] == [];
  }

  /** A precomposed Latin-1 letter comes out as its base letter, lower-cased. */
  lemma FilteredOfLatin1(c: char)
    requires |Decompose(c)| == 2
    ensures Filtered([c]) == [ToLower(Decompose(c)[0])]
    ensures IsAsciiLower(Filtered([c])[0])
  {
    var d := Decompose(c);
    var b := d[0];
    assert [c][1..] == [];
    assert Nfd([c]) == d;
    assert StripMarks(d) == [b] by {
      assert d[1..] == [d[1]];
      assert [d[1]][1..] == [];
    }
    assert Lower([b]) == [ToLower(b)];
    assert [ToLower(b)][1..] == [];
  }

  /** An ASCII character that is neither a word character nor white space, `-` among them, is deleted. */
  lemma FilteredOfSymbol(c: char)
    requires c < '\U{0080}' && !IsWordChar(c) && !IsSpace(c)
    ensures Filtered([c]) == []
  {
    assert [c][1..] == [];
    assert Nfd([c]) == [c];
    assert StripMarks([c]) == [c];
    assert Lower([c]) == [c];
  }

  /** A string of ASCII characters that are neither word characters nor white space has the empty slug. */
  lemma {:induction false} SlugOfPunctuation(s: string)
    requires forall i :: 0 <= i < |s| ==> s[i] < '\U{0080}' && !IsWordChar(s[i]) && !IsSpace(s[i])
    ensures Filtered(s) == []
    ensures SlugFromString(s) == []
  {
    if s != [] {
      assert s == [s[0]] + s[1..];
      FilteredAppend([s[0]], s[1..]);
      FilteredOfSymbol(s[0]);
      SlugOfPunctuation(s[1..]);
    }
  }

  /* ---------- each stage leaves alone what it has nothing to do with ---------- */

  lemma {:induction false} NfdFixed(s: string)
    requires IsDecomposed(s)
    ensures Nfd(s) == s
  {
    if s != [] {
      NfdFixed(s[1..]);
    }
  }

  /** Decomposition is idempotent. */
  lemma NfdIdempotent(s: string)
    ensures Nfd(Nfd(s)) == Nfd(s)
  {
    NfdFixed(Nfd(s));
  }

  lemma {:induction false} StripMarksFixed(s: string)
    requires forall i :: 0 <= i < |s| ==> !IsCombiningMark(s[i])
    ensures StripMarks(s) == s
  {
    if s != [] {
      StripMarksFixed(s[1..]);
    }
  }

  /** After the second stage no combining mark is left, so repeating it changes nothing. */
  lemma StripMarksIdempotent(s: string)
    ensures StripMarks(StripMarks(s)) == StripMarks(s)
  {
    StripMarksFixed(StripMarks(s));
  }

  lemma {:induction false} LowerFixed(s: string)
    requires forall i :: 0 <= i < |s| ==> !IsAsciiUpper(s[i])
    ensures Lower(s) == s
  {
    if s != [] {
      LowerFixed(s[1..]);
    }
  }

  lemma {:induction false} StripNonWordFixed(s: string)
    requires WordsAndSpaces(s)
    ensures StripNonWord(s) == s
  {
    if s != [] {
      StripNonWordFixed(s[1..]);
    }
  }

  /** On a string of word characters and hyphens, the fourth stage deletes exactly the hyphens. */
  lemma {:induction false} StripNonWordOfHyphenated(s: string)
    requires forall i :: 0 <= i < |s| ==> IsWordChar(s[i]) || s[i] == '-'
    ensures StripNonWord(s) == RemoveHyphens(s)
    ensures forall i :: 0 <= i < |StripNonWord(s)| ==> IsWordChar(StripNonWord(s)[i])
  {
    if s != [] {
      StripNonWordOfHyphenated(s[1..]);
    }
  }

  /** The fourth stage keeps every word character, in order. */
  lemma {:induction false} WordCharsOfStripNonWord(s: string)
    ensures WordChars(StripNonWord(s)) == WordChars(s)
  {
    if s != [] {
      WordCharsOfStripNonWord(s[1..]);
    }
  }

  lemma {:induction false} CollapseFixed(s: string)
    requires forall i :: 0 <= i < |s| ==> !IsSpace(s[i])
    ensures CollapseSpaces(s) == s
  {
    if s != [] {
      CollapseFixed(s[1..]);
    }
  }

  lemma {:induction false} RemoveHyphensFixed(s: string)
    requires '-' !in s
    ensures RemoveHyphens(s) == s
  {
    if s != [] {
      RemoveHyphensFixed(s[1..]);
    }
  }

  /* ---------- the collapse stage ---------- */

  /** Skipping white space drops no word character. */
  lemma {:induction false} WordCharsOfSkipSpaces(s: string)
    ensures WordChars(SkipSpaces(s)) == WordChars(s)
  {
    if s != [] && IsSpace(s[0]) {
      WordCharsOfSkipSpaces(s[1..]);
    }
  }

  /** Counting run starts after a space is the same as counting them after the run is skipped. */
  lemma {:induction false} RunStartsOfSkipSpaces(s: string)
    ensures RunStarts(s, true) == RunStarts(SkipSpaces(s), false)
  {
    if s != [] && IsSpace(s[0]) {
      RunStartsOfSkipSpaces(s[1..]);
    }
  }

  lemma {:induction false} SkipSpacesHyphenFree(s: string)
    requires '-' !in s
    ensures '-' !in SkipSpaces(s)
  {
    if s != [] && IsSpace(s[0]) {
      assert s == [s[0]] + s[1..];
      SkipSpacesHyphenFree(s[1..]);
    }
  }

  /** A hyphen-free string collapses to one with no two adjacent hyphens. */
  lemma {:induction false} CollapseNoDoubleHyphen(s: string)
    requires '-' !in s
    ensures NoDoubleHyphen(CollapseSpaces(s))
    decreases |s|
  {
    if s == [] {
    } else if IsSpace(s[0]) {
      var u := SkipSpaces(s[1..]);
      SkipSpacesHyphenFree(s[1..]);
      CollapseNoDoubleHyphen(u);
      if u != [] {
        assert CollapseSpaces(u)[0] == u[0];
      }
    } else {
      CollapseNoDoubleHyphen(s[1..]);
    }
  }

  /** In a hyphen-free string, the hyphens of the collapse are exactly its white-space runs. */
  lemma {:induction false} CollapseHyphenCount(s: string)
    requires '-' !in s
    ensures multiset(CollapseSpaces(s))['-'] == SpaceRuns(s)
    decreases |s|
  {
    if s == [] {
    } else if IsSpace(s[0]) {
      var u := SkipSpaces(s[1..]);
      SkipSpacesHyphenFree(s[1..]);
      CollapseHyphenCount(u);
      RunStartsOfSkipSpaces(s[1..]);
      if u != [] {
        assert RunStarts(u, false) == RunStarts(u, true);
      }
    } else {
      CollapseHyphenCount(s[1..]);
      assert RunStarts(s, false) == RunStarts(s[1..], false);
    }
  }

  /** Without a trim step, the collapse starts with `-` exactly when its input starts with white space. */
  lemma CollapseLeading(s: string)
    requires '-' !in s && s != []
    ensures CollapseSpaces(s) != []
    ensures CollapseSpaces(s)[0] == '-' <==> IsSpace(s[0])
  {
  }

  /** The last character of the collapse is `-` after trailing white space, else the input's own last character. */
  lemma {:induction false} CollapseLast(s: string)
    requires s != []
    ensures CollapseSpaces(s) != []
    ensures CollapseSpaces(s)[|CollapseSpaces(s)| - 1] == if IsSpace(s[|s| - 1]) then '-' else s[|s| - 1]
    decreases |s|
  {
    var r := CollapseSpaces(s);
    if IsSpace(s[0]) {
      var u := SkipSpaces(s[1..]);
      var ru := CollapseSpaces(u);
      assert r == "-" + ru;
      if u == [] {
        CollapseLastOfSpaces(s);
      } else {
        CollapseLast(u);
        SkipSpacesSuffix(s[1..], |u| - 1);
        assert u[|u| - 1] == s[|s| - 1];
        assert r[|r| - 1] == ru[|ru| - 1];
      }
    } else if |s| == 1 {
      assert r == [s[0]];
    } else {
      var rt := CollapseSpaces(s[1..]);
      assert r == [s[0]] + rt;
      CollapseLast(s[1..]);
      assert s[1..][|s| - 2] == s[|s| - 1];
      assert r[|r| - 1] == rt[|rt| - 1];
    }
  }

  /** A string whose white space runs to its end ends in white space. */
  lemma CollapseLastOfSpaces(s: string)
    requires s != [] && IsSpace(s[0]) && SkipSpaces(s[1..]) == []
    ensures IsSpace(s[|s| - 1])
  {
    if |s| > 1 {
      assert s[|s| - 1] == s[1..][|s| - 2];
    }
  }

  /** Without a trim step, a hyphen-free string collapses to one ending in `-` exactly when it ends in white space. */
  lemma CollapseTrailing(s: string)
    requires '-' !in s && s != []
    ensures CollapseSpaces(s) != []
    ensures CollapseSpaces(s)[|CollapseSpaces(s)| - 1] == '-' <==> IsSpace(s[|s| - 1])
  {
    CollapseLast(s);
    assert s[|s| - 1] in s;
  }

  /** Skipping white space before a non-space character is not affected by what follows. */
  lemma {:induction false} SkipSpacesAppend(a: string, b: string)
    requires a != [] && !IsSpace(a[|a| - 1])
    ensures SkipSpaces(a + b) == SkipSpaces(a) + b
  {
    assert (a + b)[0] == a[0];
    if IsSpace(a[0]) {
      assert (a + b)[1..] == a[1..] + b;
      SkipSpacesAppend(a[1..], b);
    }
  }

  /** Strings split after a non-space character collapse independently. */
  lemma {:induction false} CollapseAppend(a: string, b: string)
    requires a != [] && !IsSpace(a[|a| - 1])
    ensures CollapseSpaces(a + b) == CollapseSpaces(a) + CollapseSpaces(b)
    decreases |a|
  {
    assert (a + b)[0] == a[0];
    assert (a + b)[1..] == a[1..] + b;
    if IsSpace(a[0]) {
      SkipSpacesAppend(a[1..], b);
      var u := SkipSpaces(a[1..]);
      assert u != [] && u[|u| - 1] == a[|a| - 1] by {
        SkipSpacesSuffix(a[1..], |u| - 1);
      }
      CollapseAppend(u, b);
      assert "-" + (CollapseSpaces(u) + CollapseSpaces(b)) == ("-" + CollapseSpaces(u)) + CollapseSpaces(b);
    } else if |a| == 1 {
      assert a + b == [a[0]] + b;
    } else {
      CollapseAppend(a[1..], b);
      assert [a[0]] + (CollapseSpaces(a[1..]) + CollapseSpaces(b)) == ([a[0]] + CollapseSpaces(a[1..])) + CollapseSpaces(b);
    }
  }

  /** Deleting the hyphens of the collapse leaves the word characters of its input. */
  lemma {:induction false} CollapseRemoveHyphens(s: string)
    requires WordsAndSpaces(s)
    ensures RemoveHyphens(CollapseSpaces(s)) == WordChars(s)
    decreases |s|
  {
    if s == [] {
    } else if IsSpace(s[0]) {
      var u := SkipSpaces(s[1..]);
      var ru := CollapseSpaces(u);
      SkipSpacesKeepsClass(s[1..]);
      CollapseRemoveHyphens(u);
      WordCharsOfSkipSpaces(s[1..]);
      calc {
        RemoveHyphens(CollapseSpaces(s));
        RemoveHyphens("-" + ru);
        { assert ("-" + ru)[1..] == ru; }
        RemoveHyphens(ru);
        WordChars(s[1..]);
        WordChars(s);
      }
    } else {
      var rt := CollapseSpaces(s[1..]);
      CollapseRemoveHyphens(s[1..]);
      calc {
        RemoveHyphens(CollapseSpaces(s));
        RemoveHyphens([s[0]] + rt);
        { assert ([s[0]] + rt)[1..] == rt; }
        [s[0]] + RemoveHyphens(rt);
        WordChars(s);
      }
    }
  }

  /** Skipping white space keeps a string of word characters and white space one. */
  lemma SkipSpacesKeepsClass(s: string)
    requires WordsAndSpaces(s)
    ensures WordsAndSpaces(SkipSpaces(s))
  {
    var u := SkipSpaces(s);
    forall i | 0 <= i < |u| ensures IsWordChar(u[i]) || IsSpace(u[i]) {
      SkipSpacesSuffix(s, i);
    }
  }

  /* ---------- the whole deriver ---------- */

  /** A slug never holds two adjacent hyphens. */
  lemma SlugNoDoubleHyphen(input: string)
    ensures NoDoubleHyphen(SlugFromString(input))
  {
    CollapseNoDoubleHyphen(Filtered(input));
  }

  /** The hyphens of a slug are as many as the white-space runs left by the fourth stage. */
  lemma SlugHyphenCount(input: string)
    ensures multiset(SlugFromString(input))['-'] == SpaceRuns(Filtered(input))
  {
    CollapseHyphenCount(Filtered(input));
  }

  /** The input filters to nothing exactly when its slug is empty. */
  lemma SlugEmpty(input: string)
    ensures SlugFromString(input) == [] <==> Filtered(input) == []
  {
    var f := Filtered(input);
    if f != [] {
      CollapseLeading(f);
    }
  }

  /** A slug starts with `-` exactly when the filtered input starts with white space. */
  lemma SlugLeading(input: string)
    requires Filtered(input) != []
    ensures SlugFromString(input) != []
    ensures SlugFromString(input)[0] == '-' <==> IsSpace(Filtered(input)[0])
  {
    CollapseLeading(Filtered(input));
  }

  /** A slug ends with `-` exactly when the filtered input ends with white space. */
  lemma SlugTrailing(input: string)
    requires Filtered(input) != []
    ensures SlugFromString(input) != []
    ensures var slug, f := SlugFromString(input), Filtered(input);
      slug[|slug| - 1] == '-' <==> IsSpace(f[|f| - 1])
  {
    CollapseTrailing(Filtered(input));
  }

  /** Leading white space in the input gives a leading `-`: nothing trims it. */
  lemma SlugKeepsLeadingSpace(input: string)
    requires input != [] && IsSpace(input[0])
    ensures SlugFromString(input) != [] && SlugFromString(input)[0] == '-'
  {
    var c, rest := input[0], input[1..];
    assert input == [c] + rest;
    FilteredAppend([c], rest);
    FilteredSpace(c);
    assert Filtered(input) == [c] + Filtered(rest);
    assert Filtered(input)[0] == c;
    SlugLeading(input);
  }

  /** Trailing white space in the input gives a trailing `-`: nothing trims it. */
  lemma SlugKeepsTrailingSpace(input: string)
    requires input != [] && IsSpace(input[|input| - 1])
    ensures SlugFromString(input) != []
    ensures SlugFromString(input)[|SlugFromString(input)| - 1] == '-'
  {
    var init, c := input[..|input| - 1], input[|input| - 1];
    assert input == init + [c];
    FilteredAppend(init, [c]);
    FilteredSpace(c);
    var f := Filtered(input);
    assert f == Filtered(init) + [c];
    assert f[|f| - 1] == c;
    SlugTrailing(input);
  }

  /** Splitting the input after a character that survives as a non-space character splits the slug there. */
  lemma SlugAppend(a: string, b: string)
    requires Filtered(a) != [] && !IsSpace(Filtered(a)[|Filtered(a)| - 1])
    ensures SlugFromString(a + b) == SlugFromString(a) + SlugFromString(b)
  {
    FilteredAppend(a, b);
    CollapseAppend(Filtered(a), Filtered(b));
  }

  /** Deleting the hyphens of a slug leaves the word characters of the lower-cased, accent-stripped input, in order. */
  lemma SlugWordChars(input: string)
    ensures RemoveHyphens(SlugFromString(input)) == WordChars(Lower(StripMarks(Nfd(input))))
  {
    var folded := Lower(StripMarks(Nfd(input)));
    CollapseRemoveHyphens(StripNonWord(folded));
    WordCharsOfStripNonWord(folded);
  }

  /** On a string of slug characters the deriver only deletes the hyphens. */
  lemma SlugOfSlugChars(s: string)
    requires forall i :: 0 <= i < |s| ==> IsSlugChar(s[i])
    ensures SlugFromString(s) == RemoveHyphens(s)
  {
    FilteredOfSlugChars(s);
    var t := RemoveHyphens(s);
    forall i | 0 <= i < |t| ensures !IsSpace(t[i]) {
      ClassesDisjoint(t[i]);
    }
    CollapseFixed(t);
  }

  /** The first four stages only delete the hyphens of a string of slug characters. */
  lemma FilteredOfSlugChars(s: string)
    requires forall i :: 0 <= i < |s| ==> IsSlugChar(s[i])
    ensures Filtered(s) == RemoveHyphens(s)
    ensures forall i :: 0 <= i < |RemoveHyphens(s)| ==> IsWordChar(RemoveHyphens(s)[i])
  {
    NfdFixed(s);
    StripMarksFixed(s);
    LowerFixed(s);
    StripNonWordOfHyphenated(s);
  }

  /** A string of `[a-z0-9_]` is its own slug. */
  lemma SlugOfPlainSlug(s: string)
    requires forall i :: 0 <= i < |s| ==> IsAsciiLower(s[i]) || IsAsciiDigit(s[i]) || s[i] == '_'
    ensures SlugFromString(s) == s
  {
    SlugOfSlugChars(s);
    RemoveHyphensFixed(s);
  }

  /** Deriving a slug from a slug deletes its hyphens. */
  lemma SlugOfSlug(input: string)
    ensures SlugFromString(SlugFromString(input)) == RemoveHyphens(SlugFromString(input))
  {
    SlugOfSlugChars(SlugFromString(input));
  }

  /** The deriver is idempotent exactly on the slugs that hold no hyphen. */
  lemma SlugIdempotentIff(input: string)
    ensures var slug := SlugFromString(input);
      SlugFromString(slug) == slug <==> '-' !in slug
  {
    var slug := SlugFromString(input);
    SlugOfSlug(input);
    if '-' !in slug {
      RemoveHyphensFixed(slug);
    }
  }
}
