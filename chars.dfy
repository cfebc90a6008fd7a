/**
 * Character classes used by the slug deriver of the tag creation form
 * (src/components/create-tag-form.tsx).
 *
 * The regular expressions of the deriver have no `u` flag, so `\w` is the
 * ASCII class [A-Za-z0-9_] and `\s` is the fixed ECMAScript set of white-space
 * and line-terminator characters. Unicode decomposition and Unicode lower-casing
 * are library tables; this module gives a small explicit decomposition table
 * (the precomposed letters of the Latin-1 Supplement block) and ASCII
 * lower-casing.
 */
module CharClasses {

  /** A combining diacritical mark: the block U+0300..U+036F deleted by the second stage. */
  predicate IsCombiningMark(c: char)
    ensures IsCombiningMark(c) ==> !(c < '\U{0080}')
  {
    '\U{0300}' <= c <= '\U{036F}'
  }

  /** `\s` of an ECMAScript regular expression: WhiteSpace and LineTerminator code points. */
  predicate IsSpace(c: char)
    ensures c < '\U{0080}' ==> (IsSpace(c) <==> c in {'\t', '\n', '\U{000B}', '\U{000C}', '\r', ' '})
    ensures IsSpace(c) ==> c <= '\U{FEFF}'
  {
    if c < '\U{0080}' then ('\t' <= c <= '\r') || c == ' ' else IsNonAsciiSpace(c)
  }

  /**
   * The white space outside ASCII: no-break space, Ogham space mark, the
   * spaces U+2000..U+200A, line and paragraph separators, narrow no-break
   * space, medium mathematical space, ideographic space and the byte order mark.
   */
  predicate IsNonAsciiSpace(c: char) {
    || c == '\U{00A0}' || c == '\U{1680}'
    || ('\U{2000}' <= c <= '\U{200A}')
    || c == '\U{2028}' || c == '\U{2029}' || c == '\U{202F}' || c == '\U{205F}'
    || c == '\U{3000}' || c == '\U{FEFF}'
  }

  predicate IsAsciiUpper(c: char) {
    'A' <= c <= 'Z'
  }

  predicate IsAsciiLower(c: char) {
    'a' <= c <= 'z'
  }

  predicate IsAsciiDigit(c: char) {
    '0' <= c <= '9'
  }

  predicate IsAsciiLetter(c: char) {
    IsAsciiUpper(c) || IsAsciiLower(c)
  }

  /** `\w` of a regular expression without the `u` flag. */
  predicate IsWordChar(c: char)
    ensures IsWordChar(c) ==> c < '\U{0080}'
  {
    IsAsciiLetter(c) || IsAsciiDigit(c) || c == '_'
  }

  /** The character classes of the deriver do not overlap, and `-` is in none of them. */
  lemma ClassesDisjoint(c: char)
    ensures IsWordChar(c) ==> !IsSpace(c) && !IsCombiningMark(c)
    ensures IsSpace(c) ==> !IsCombiningMark(c)
    ensures !IsWordChar('-') && !IsSpace('-') && !IsCombiningMark('-')
  {
  }

  /** The characters a slug may be made of: [a-z0-9_] and the separator `-`. */
  predicate IsSlugChar(c: char) {
    IsAsciiLower(c) || IsAsciiDigit(c) || c == '_' || c == '-'
  }

  /**
   * Lower-casing of one character, restricted to ASCII: `A`..`Z` become
   * `a`..`z` and every other character is kept.
   */
  function ToLower(c: char): (r: char)
    ensures !IsAsciiUpper(r)
    ensures !IsAsciiUpper(c) ==> r == c
    ensures IsWordChar(r) <==> IsWordChar(c)
    ensures IsSpace(r) <==> IsSpace(c)
    ensures IsAsciiUpper(c) ==> IsAsciiLower(r) && r as int - c as int == 32
  {
    if IsAsciiUpper(c) then (c as int + 32) as char else c
  }

  const Grave: char := '\U{0300}'
  const Acute: char := '\U{0301}'
  const Circumflex: char := '\U{0302}'
  const Tilde: char := '\U{0303}'
  const Diaeresis: char := '\U{0308}'
  const RingAbove: char := '\U{030A}'
  const Cedilla: char := '\U{0327}'

  /**
   * Canonical decomposition of one character. Only the precomposed letters of
   * the Latin-1 Supplement block decompose, each into an ASCII base letter
   * followed by one combining mark; every other character is its own
   * decomposition.
   */
  function Decompose(c: char): (r: string)
    ensures r == [c] || (|r| == 2 && IsAsciiLetter(r[0]) && IsCombiningMark(r[1]))
    ensures !InLatin1Supplement(c) ==> r == [c]
  {
    if InLatin1Supplement(c) then DecomposeLatin1(c) else [c]
  }

  /** The upper part of the Latin-1 Supplement block, U+00C0..U+00FF: its letters and the signs × and ÷. */
  predicate InLatin1Supplement(c: char) {
    '\U{00C0}' <= c <= '\U{00FF}'
  }

  /** The canonical decompositions of the Latin-1 Supplement block. */
  function DecomposeLatin1(c: char): (r: string)
    requires InLatin1Supplement(c)
    ensures r == [c] || (|r| == 2 && IsAsciiLetter(r[0]) && IsCombiningMark(r[1]))
  {
    match c
    case 'À' => ['A', Grave]
    case 'Á' => ['A', Acute]
    case 'Â' => ['A', Circumflex]
    case 'Ã' => ['A', Tilde]
    case 'Ä' => ['A', Diaeresis]
    case 'Å' => ['A', RingAbove]
    case 'Ç' => ['C', Cedilla]
    case 'È' => ['E', Grave]
    case 'É' => ['E', Acute]
    case 'Ê' => ['E', Circumflex]
    case 'Ë' => ['E', Diaeresis]
    case 'Ì' => ['I', Grave]
    case 'Í' => ['I', Acute]
    case 'Î' => ['I', Circumflex]
    case 'Ï' => ['I', Diaeresis]
    case 'Ñ' => ['N', Tilde]
    case 'Ò' => ['O', Grave]
    case 'Ó' => ['O', Acute]
    case 'Ô' => ['O', Circumflex]
    case 'Õ' => ['O', Tilde]
    case 'Ö' => ['O', Diaeresis]
    case 'Ù' => ['U', Grave]
    case 'Ú' => ['U', Acute]
    case 'Û' => ['U', Circumflex]
    case 'Ü' => ['U', Diaeresis]
    case 'Ý' => ['Y', Acute]
    case 'à' => ['a', Grave]
    case 'á' => ['a', Acute]
    case 'â' => ['a', Circumflex]
    case 'ã' => ['a', Tilde]
    case 'ä' => ['a', Diaeresis]
    case 'å' => ['a', RingAbove]
    case 'ç' => ['c', Cedilla]
    case 'è' => ['e', Grave]
    case 'é' => ['e', Acute]
    case 'ê' => ['e', Circumflex]
    case 'ë' => ['e', Diaeresis]
    case 'ì' => ['i', Grave]
    case 'í' => ['i', Acute]
    case 'î' => ['i', Circumflex]
    case 'ï' => ['i', Diaeresis]
    case 'ñ' => ['n', Tilde]
    case 'ò' => ['o', Grave]
    case 'ó' => ['o', Acute]
    case 'ô' => ['o', Circumflex]
    case 'õ' => ['o', Tilde]
    case 'ö' => ['o', Diaeresis]
    case 'ù' => ['u', Grave]
    case 'ú' => ['u', Acute]
    case 'û' => ['u', Circumflex]
    case 'ü' => ['u', Diaeresis]
    case 'ý' => ['y', Acute]
    case 'ÿ' => ['y', Diaeresis]
    case _ => [c]
  }

  /** A decomposed character decomposes no further. */
  lemma DecomposeIsStable(c: char)
    ensures forall i :: 0 <= i < |Decompose(c)| ==> Decompose(Decompose(c)[i]) == [Decompose(c)[i]]
  {
  }
}
