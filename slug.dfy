/**
 * The slug deriver `getSlugFromString` of src/components/create-tag-form.tsx:
 * a pipeline of five string stages, each modelled as its own function.
 *
 *   1. Nfd           canonical decomposition
 *   2. StripMarks    deletion of the combining diacritical marks
 *   3. Lower         lower-casing
 *   4. StripNonWord  deletion of every character that is neither `\w` nor `\s`
 *   5. CollapseSpaces  each maximal run of `\s` becomes one `-`
 */
module SlugDeriver {
  import opened CharClasses

  /** Every character of `s` is its own decomposition. */
  predicate IsDecomposed(s: string) {
    forall i :: 0 <= i < |s| ==> Decompose(s[i]) == [s[i]]
  }

  /** Every character of `s` is a word character or white space. */
  predicate WordsAndSpaces(s: string) {
    forall i :: 0 <= i < |s| ==> IsWordChar(s[i]) || IsSpace(s[i])
  }

  /** Stage 1: canonical decomposition, character by character. */
  function Nfd(s: string): (r: string)
    ensures |s| <= |r| <= 2 * |s|
    ensures IsDecomposed(r)
  {
    if s == [] then [] else Decompose(s[0]) + Nfd(s[1..])
  }

  /** Stage 2: every combining diacritical mark is deleted, every other character kept. */
  function StripMarks(s: string): (r: string)
    ensures |r| <= |s|
    ensures forall i :: 0 <= i < |r| ==> !IsCombiningMark(r[i])
  {
    if s == [] then []
    else if IsCombiningMark(s[0]) then StripMarks(s[1..]) else [s[0]] + StripMarks(s[1..])
  }

  /** Stage 3: lower-casing, one character at a time. */
  function Lower(s: string): (r: string)
    ensures |r| == |s|
    ensures forall i :: 0 <= i < |r| ==> r[i] == ToLower(s[i]) && !IsAsciiUpper(r[i])
  {
    if s == [] then [] else [ToLower(s[0])] + Lower(s[1..])
  }

  /** Stage 4: every character that is neither `\w` nor `\s` is deleted. */
  function StripNonWord(s: string): (r: string)
    ensures |r| <= |s|
    ensures WordsAndSpaces(r)
    ensures '-' !in r
  {
    if s == [] then []
    else if IsWordChar(s[0]) || IsSpace(s[0]) then [s[0]] + StripNonWord(s[1..]) else StripNonWord(s[1..])
  }

  /** The longest suffix of `s` that does not start with white space. */
  function SkipSpaces(s: string): (r: string)
    ensures |r| <= |s|
    ensures forall i :: 0 <= i < |s| - |r| ==> IsSpace(s[i])
    ensures r == [] || !IsSpace(r[0])
  {
    if s != [] && IsSpace(s[0]) then SkipSpaces(s[1..])
    else s
  }

  /** What `SkipSpaces` leaves is a suffix of its argument. */
  lemma {:induction false} SkipSpacesSuffix(s: string, i: nat)
    requires i < |SkipSpaces(s)|
    ensures SkipSpaces(s)[i] == s[|s| - |SkipSpaces(s)| + i]
  {
    if s != [] && IsSpace(s[0]) {
      SkipSpacesSuffix(s[1..], i);
    }
  }

  /**
   * Stage 5: each maximal run of white space becomes one `-`; every other
   * character is kept. The regular expression is global and greedy, so a run
   * is consumed whole before the scan goes on.
   */
  function CollapseSpaces(s: string): (r: string)
    ensures |r| <= |s|
    ensures forall i :: 0 <= i < |r| ==> !IsSpace(r[i])
    decreases |s|
  {
    if s == [] then []
    else if IsSpace(s[0]) then "-" + CollapseSpaces(SkipSpaces(s[1..]))
    else [s[0]] + CollapseSpaces(s[1..])
  }

  /** The fourth stage only deletes, so it keeps a lower-case string lower-case. */
  lemma {:induction false} StripNonWordKeepsLowerCase(s: string)
    requires forall i :: 0 <= i < |s| ==> !IsAsciiUpper(s[i])
    ensures forall i :: 0 <= i < |StripNonWord(s)| ==> !IsAsciiUpper(StripNonWord(s)[i])
  {
    if s != [] {
      StripNonWordKeepsLowerCase(s[1..]);
    }
  }

  /** Collapsing a lower-case string of word characters and white space leaves only slug characters. */
  lemma {:induction false} CollapseToSlugChars(s: string)
    requires WordsAndSpaces(s)
    requires forall i :: 0 <= i < |s| ==> !IsAsciiUpper(s[i])
    ensures forall i :: 0 <= i < |CollapseSpaces(s)| ==> IsSlugChar(CollapseSpaces(s)[i])
    decreases |s|
  {
    if s != [] {
      var r := CollapseSpaces(s);
      if IsSpace(s[0]) {
        var u := SkipSpaces(s[1..]);
        forall i | 0 <= i < |u| ensures (IsWordChar(u[i]) || IsSpace(u[i])) && !IsAsciiUpper(u[i]) {
          SkipSpacesSuffix(s[1..], i);
        }
        CollapseToSlugChars(u);
        assert r == "-" + CollapseSpaces(u);
      } else {
        CollapseToSlugChars(s[1..]);
        assert r == [s[0]] + CollapseSpaces(s[1..]);
      }
    }
  }

  /** The first four stages: a lower-case string of word characters and white space. */
  function Filtered(input: string): (r: string)
    ensures WordsAndSpaces(r)
    ensures forall i :: 0 <= i < |r| ==> !IsAsciiUpper(r[i])
    ensures '-' !in r
    ensures |r| <= |StripMarks(Nfd(input))|
  {
    var lowered := Lower(StripMarks(Nfd(input)));
    StripNonWordKeepsLowerCase(lowered);
    StripNonWord(lowered)
  }

  /** `getSlugFromString`: the five stages in order. */
  function SlugFromString(input: string): (slug: string)
    ensures forall i :: 0 <= i < |slug| ==> IsSlugChar(slug[i])
    ensures |slug| <= |StripMarks(Nfd(input))|
    ensures input == [] ==> slug == []
  {
    var filtered := Filtered(input);
    CollapseToSlugChars(filtered);
    CollapseSpaces(filtered)
  }
}
