# Slug deriver of the tag creation form

This project models the logic of the tag creation form in
`src/components/create-tag-form.tsx`. The form lets a user type a tag name
and shows a URL slug derived from it. It checks that the name has at least
three characters, then posts a record that holds the name as title, the
slug and a video count of zero.

The core is the slug deriver `getSlugFromString`. It is a chain of five
string stages, and each one is a function in module `SlugDeriver`:

1. `Nfd`: canonical decomposition.
2. `StripMarks`: deletes combining diacritical marks U+0300..U+036F.
3. `Lower`: lower-casing.
4. `StripNonWord`: deletes every character that is neither `\w` nor `\s`.
5. `CollapseSpaces`: turns each maximal run of `\s` into one `-`.

The regular expressions have no `u` flag. So `\w` is ASCII `[A-Za-z0-9_]`,
and `\s` is the fixed ECMAScript set of white-space and line-terminator
characters. Both are defined in module `CharClasses`, together with the
decomposition table and the lower-casing of one character.

Module `SlugProperties` proves what the deriver promises:
- the alphabet of a slug;
- hyphens stand exactly for white-space runs, and two never touch;
- nothing trims leading or trailing white space;
- word characters survive in order;
- the deriver only deletes hyphens from its own outputs, so it is idempotent
  exactly on slugs without a hyphen.

Module `SlugExamples` holds a few small worked inputs.

Module `CreateTagForm` models the pure parts of the form around the deriver:
- the name rule, "Minimum 3 characters.";
- the slug shown while typing, which is empty for an unset or empty name;
- the request body.

A literal `-` in a name does not survive. Stage 4 deletes it before
stage 5 inserts any hyphen, so `"Café  Déjà-vu!"` gives `"cafe-dejavu"`,
not `"cafe-deja-vu"`. The model shows this as follows:
- `SlugExamples.HyphenIsDeleted` shows it on `"a-b"`;
- `SlugProperties.SlugWordChars` and `SlugProperties.SlugHyphenCount` state
  it for every input.

## Model

| member | source | states |
|---|---|---|
| CharClasses.IsCombiningMark | src/components/create-tag-form.tsx:19 | The class deleted by stage 2, U+0300..U+036F; none of it is ASCII |
| CharClasses.IsSpace | src/components/create-tag-form.tsx:21-22 | `\s` without the `u` flag: in ASCII exactly tab, line feed, vertical tab, form feed, carriage return and space; beyond ASCII the fixed ECMAScript white-space and line-terminator set, all inside the Basic Multilingual Plane |
| CharClasses.IsNonAsciiSpace | src/components/create-tag-form.tsx:21-22 | The non-ASCII part of `\s`: U+00A0, U+1680, U+2000..U+200A, U+2028, U+2029, U+202F, U+205F, U+3000 and U+FEFF |
| CharClasses.IsWordChar | src/components/create-tag-form.tsx:21 | `\w` without the `u` flag: `[A-Za-z0-9_]`, only ASCII characters |
| CharClasses.ToLower | src/components/create-tag-form.tsx:20 | The lower-cased character is never an ASCII capital; a capital moves down by 32 to a small letter; any other character is kept; being `\w` or `\s` is unchanged |
| CharClasses.Decompose | src/components/create-tag-form.tsx:18 | A character decomposes either to itself or to an ASCII base letter followed by one combining mark; outside U+00C0..U+00FF it is its own decomposition |
| CharClasses.DecomposeLatin1 | src/components/create-tag-form.tsx:18 | Each precomposed Latin-1 letter decomposes to an ASCII letter plus one combining mark, or stays whole |
| CharClasses.DecomposeIsStable | src/components/create-tag-form.tsx:18 | Every character of a decomposition is its own decomposition |
| CharClasses.ClassesDisjoint | src/components/create-tag-form.tsx:19-22 | Word characters, white space and combining marks do not overlap; `-` is in none of them |
| SlugDeriver.Nfd | src/components/create-tag-form.tsx:18 | Decomposition at least keeps and at most doubles the length; its result is fully decomposed |
| SlugDeriver.StripMarks | src/components/create-tag-form.tsx:19 | No combining mark U+0300..U+036F is left, and the string does not grow |
| SlugDeriver.Lower | src/components/create-tag-form.tsx:20 | Lower-casing keeps the length, maps each character through `ToLower`, and leaves no ASCII capital |
| SlugDeriver.StripNonWord | src/components/create-tag-form.tsx:21 | Only word characters and white space are left, so no `-` is; the string does not grow |
| SlugDeriver.SkipSpaces | src/components/create-tag-form.tsx:22 | It removes a prefix made only of white space and stops at a non-space character or the end |
| SlugDeriver.SkipSpacesSuffix | src/components/create-tag-form.tsx:22 | What `SkipSpaces` leaves is a suffix of its argument |
| SlugDeriver.CollapseSpaces | src/components/create-tag-form.tsx:22 | No white space is left after the collapse, and the string does not grow |
| SlugDeriver.StripNonWordKeepsLowerCase | src/components/create-tag-form.tsx:20-21 | Stage 4 keeps a string without ASCII capitals free of them |
| SlugDeriver.CollapseToSlugChars | src/components/create-tag-form.tsx:21-22 | Collapsing lower-case word characters and white space gives only `[a-z0-9_-]` |
| SlugDeriver.Filtered | src/components/create-tag-form.tsx:18-21 | The first four stages leave only lower-case word characters and white space, with no `-`, and never more characters than the accent-stripped input |
| SlugDeriver.SlugFromString | src/components/create-tag-form.tsx:16-23 | Every slug character is in `[a-z0-9_-]`, so there is no capital, space or punctuation; the slug is no longer than the accent-stripped input; the empty input gives the empty slug |
| SlugProperties.RemoveHyphens | src/components/create-tag-form.tsx:21 | Its result has no `-`, and it is shorter than the input by exactly the number of hyphens |
| SlugProperties.NfdAppend | src/components/create-tag-form.tsx:18 | Decomposition distributes over concatenation |
| SlugProperties.StripMarksAppend | src/components/create-tag-form.tsx:19 | Mark deletion distributes over concatenation |
| SlugProperties.LowerAppend | src/components/create-tag-form.tsx:20 | Lower-casing distributes over concatenation |
| SlugProperties.StripNonWordAppend | src/components/create-tag-form.tsx:21 | Stage 4 distributes over concatenation |
| SlugProperties.FilteredAppend | src/components/create-tag-form.tsx:18-21 | The first four stages together distribute over concatenation |
| SlugProperties.FilteredSpace | src/components/create-tag-form.tsx:18-21 | A white-space character passes the first four stages unchanged |
| SlugProperties.FilteredOfUpper | src/components/create-tag-form.tsx:18-21 | An ASCII capital comes out of the first four stages as the matching small letter |
| SlugProperties.FilteredOfLatin1 | src/components/create-tag-form.tsx:18-21 | A decomposable Latin-1 letter comes out as its base letter, lower-cased |
| SlugProperties.FilteredOfSymbol | src/components/create-tag-form.tsx:18-21 | An ASCII character that is neither `\w` nor `\s`, `-` among them, is deleted |
| SlugProperties.SlugOfPunctuation | src/components/create-tag-form.tsx:21-22 | A name made only of ASCII characters that are neither `\w` nor `\s` filters to nothing and has the empty slug |
| SlugProperties.NfdFixed | src/components/create-tag-form.tsx:18 | Decomposition leaves a decomposed string unchanged |
| SlugProperties.NfdIdempotent | src/components/create-tag-form.tsx:18 | Decomposing twice is the same as decomposing once |
| SlugProperties.StripMarksFixed | src/components/create-tag-form.tsx:19 | A string without marks is left unchanged by stage 2 |
| SlugProperties.StripMarksIdempotent | src/components/create-tag-form.tsx:19 | Deleting marks twice is the same as once |
| SlugProperties.LowerFixed | src/components/create-tag-form.tsx:20 | A string without ASCII capitals is left unchanged by stage 3 |
| SlugProperties.StripNonWordFixed | src/components/create-tag-form.tsx:21 | A string of word characters and white space is left unchanged by stage 4 |
| SlugProperties.StripNonWordOfHyphenated | src/components/create-tag-form.tsx:21 | On word characters and hyphens, stage 4 deletes exactly the hyphens |
| SlugProperties.WordCharsOfStripNonWord | src/components/create-tag-form.tsx:21 | Stage 4 keeps every word character, in order |
| SlugProperties.CollapseFixed | src/components/create-tag-form.tsx:22 | A string without white space is left unchanged by the collapse |
| SlugProperties.RemoveHyphensFixed | src/components/create-tag-form.tsx:21 | Deleting hyphens from a hyphen-free string changes nothing |
| SlugProperties.WordCharsOfSkipSpaces | src/components/create-tag-form.tsx:22 | Skipping a run of white space drops no word character |
| SlugProperties.RunStartsOfSkipSpaces | src/components/create-tag-form.tsx:22 | Skipping a run does not change the count of the runs that follow |
| SlugProperties.SkipSpacesHyphenFree | src/components/create-tag-form.tsx:22 | Skipping white space keeps a hyphen-free string hyphen-free |
| SlugProperties.SkipSpacesKeepsClass | src/components/create-tag-form.tsx:21-22 | Skipping white space keeps a string of word characters and white space one |
| SlugProperties.CollapseNoDoubleHyphen | src/components/create-tag-form.tsx:22 | A hyphen-free string collapses to one with no two adjacent hyphens |
| SlugProperties.CollapseHyphenCount | src/components/create-tag-form.tsx:22 | A hyphen-free string collapses to one with exactly one `-` per maximal white-space run |
| SlugProperties.CollapseLeading | src/components/create-tag-form.tsx:22 | The collapse of a nonempty hyphen-free string starts with `-` if and only if the string starts with white space |
| SlugProperties.CollapseLast | src/components/create-tag-form.tsx:22 | The collapse ends in `-` after trailing white space, and otherwise in the input's own last character |
| SlugProperties.CollapseLastOfSpaces | src/components/create-tag-form.tsx:22 | A string whose leading white-space run reaches its end ends in white space |
| SlugProperties.CollapseTrailing | src/components/create-tag-form.tsx:22 | The collapse of a nonempty hyphen-free string ends in `-` if and only if the string ends in white space |
| SlugProperties.SkipSpacesAppend | src/components/create-tag-form.tsx:22 | Skipping white space in a string that ends in a non-space character does not depend on what follows it |
| SlugProperties.CollapseAppend | src/components/create-tag-form.tsx:22 | Strings split after a non-space character collapse independently |
| SlugProperties.CollapseRemoveHyphens | src/components/create-tag-form.tsx:21-22 | Deleting the hyphens of a collapse gives the word characters of its input, in order |
| SlugProperties.SlugNoDoubleHyphen | src/components/create-tag-form.tsx:21-22 | A slug never holds two adjacent hyphens |
| SlugProperties.SlugHyphenCount | src/components/create-tag-form.tsx:21-22 | A slug has as many hyphens as stage 4 leaves maximal white-space runs |
| SlugProperties.SlugEmpty | src/components/create-tag-form.tsx:16-23 | The slug is empty if and only if nothing survives stage 4 |
| SlugProperties.SlugLeading | src/components/create-tag-form.tsx:21-22 | A slug starts with `-` if and only if the filtered input starts with white space |
| SlugProperties.SlugTrailing | src/components/create-tag-form.tsx:21-22 | A slug ends with `-` if and only if the filtered input ends with white space |
| SlugProperties.SlugKeepsLeadingSpace | src/components/create-tag-form.tsx:17-22 | Leading white space in the name gives a leading `-`, because nothing trims it |
| SlugProperties.SlugKeepsTrailingSpace | src/components/create-tag-form.tsx:17-22 | Trailing white space in the name gives a trailing `-`, because nothing trims it |
| SlugProperties.SlugAppend | src/components/create-tag-form.tsx:16-23 | Splitting the name after a character that survives as a non-space character splits the slug at that point |
| SlugProperties.SlugWordChars | src/components/create-tag-form.tsx:19-22 | Deleting the hyphens of a slug gives the word characters of the lower-cased, accent-stripped name, in their original order |
| SlugProperties.FilteredOfSlugChars | src/components/create-tag-form.tsx:18-21 | On slug characters, the first four stages delete exactly the hyphens |
| SlugProperties.SlugOfSlugChars | src/components/create-tag-form.tsx:16-23 | On a string of slug characters the deriver deletes exactly the hyphens |
| SlugProperties.SlugOfPlainSlug | src/components/create-tag-form.tsx:16-23 | A string of `[a-z0-9_]` comes back unchanged |
| SlugProperties.SlugOfSlug | src/components/create-tag-form.tsx:16-23 | Deriving a slug again from a slug deletes its hyphens |
| SlugProperties.SlugIdempotentIff | src/components/create-tag-form.tsx:16-23 | A slug is its own slug if and only if it holds no `-` |
| SlugExamples.SpaceBecomesHyphen | src/components/create-tag-form.tsx:22 | `"a b"` gives `"a-b"` |
| SlugExamples.HyphenIsDeleted | src/components/create-tag-form.tsx:21 | `"a-b"` gives `"ab"`, so the deriver is not idempotent on its own hyphenated output |
| SlugExamples.OuterSpaceKept | src/components/create-tag-form.tsx:22 | `" a "` gives `"-a-"` |
| SlugExamples.AccentStripped | src/components/create-tag-form.tsx:18-20 | `"É"` gives `"e"` |
| SlugExamples.PunctuationOnly | src/components/create-tag-form.tsx:21 | `"!?"` gives the empty slug |
| CreateTagForm.ValidateName | src/components/create-tag-form.tsx:10-12 | A name is accepted if and only if it has at least 3 characters; an accepted name is kept as is; a rejected one gets "Minimum 3 characters." |
| CreateTagForm.WatchedSlug | src/components/create-tag-form.tsx:32 | An unset name shows the empty slug; a set name, empty or not, shows exactly its derived slug, so the guard only short-cuts the empty case |
| CreateTagForm.CreateTagRequest | src/components/create-tag-form.tsx:40-44 | A request is built if and only if the name has at least 3 characters; otherwise the result is the schema's message. The request has title = name, slug = the derived slug (only `[a-z0-9_-]`) and zero videos |
| CreateTagForm.AcceptedNameWithEmptySlug | src/components/create-tag-form.tsx:11 | `"!!!"` is accepted with an empty slug: the rule checks the name, not the slug |
| CreateTagForm.ShortNameRejected | src/components/create-tag-form.tsx:11 | `"ab"` is rejected with "Minimum 3 characters." |

## Left out

- The rendering of the form is not modelled: JSX, the dialog close button and the busy state of the submit button (`src/components/create-tag-form.tsx:59-111`). It is user interface with no logic of its own.
- The react-hook-form wiring is not modelled: `register`, `watch`, `handleSubmit` and the zod resolver. Only the single min-length rule and the watch guard are modelled.
- The POST to the tags endpoint is not modelled, nor the query-cache invalidation after it or the success toast (`src/components/create-tag-form.tsx:34-57`). These are network I/O and asynchronous calls into libraries. The request is modelled only as the record it would send; its JSON text is not.
- `src/main.tsx` is not part of this model. It only creates the query client and mounts the application.
- CharClasses.Decompose: this is not full Unicode canonical decomposition. Only the precomposed letters of the Latin-1 Supplement block (U+00C0..U+00FF) decompose, into an ASCII base letter and one mark. Every other character, Latin Extended-A (such as `ā` or `ő`) among them, is kept whole, and stage 4 then deletes it. Full NFD would keep its base letter.
- SlugDeriver.Nfd: marks are not reordered canonically. Each character is decomposed on its own.
- CharClasses.ToLower: only ASCII `A`..`Z` is lower-cased. Unicode lower-casing of other characters is not modelled. For the slug this loses nothing: stage 4 deletes every non-ASCII character. The only characters whose lower case contains ASCII are the Kelvin sign U+212A and the dotted capital I U+0130, and full decomposition already turns both into an ASCII capital. These two are outside the decomposition table here, so the model drops them.
- CreateTagForm.ValidateName: the length is counted in characters, not in UTF-16 code units as the schema counts it. A name with characters outside the Basic Multilingual Plane is therefore shorter here than there. Slugs are unaffected, because every character class involved lies in that plane and stage 4 deletes anything else.
- CreateTagForm.CreateTagRequest: the slug in the request is taken to be the slug of the submitted name. The component reads the watched slug at render time, and that equals the slug of the submitted name whenever the submitted name is the one on screen.
- Long worked inputs are not proved, for example `"Café  Déjà-vu!"` giving `"cafe-dejavu"`. Evaluating them costs the solver too much. Their outcome follows from the general lemmas: `SlugWordChars`, `SlugHyphenCount`, `SlugAppend` and the per-character `FilteredOf...` lemmas.
