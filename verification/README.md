# Recipe description formatter

The recipe app shows a category's description as several short paragraphs
instead of one block of text. `formatIntoReadableParagraphs` in
`CategoryDetailscreen.kt` builds them in three steps:

1. **Cleaning.** `description.trim().replace(Regex("\\s+"), " ")` drops the
   whitespace at both ends and turns each run of whitespace into one space.
2. **Splitting.** `split(Regex("(?<=[.!?])\\s+"))` cuts the cleaned text
   wherever whitespace follows `.`, `!` or `?`. Then `filter { it.isNotEmpty() }`
   drops empty fragments.
3. **Grouping.** A `for (i in sentences.indices step 3)` loop joins
   sentences `i` up to `min(i + 3, n)` with single spaces and appends the
   result to a mutable list. If that list is still empty but the cleaned
   text is not, the cleaned text is appended as the only paragraph.

The model follows that structure, one module per step:

- `Cleaning` (`Cleaning.dfy`) holds `Trim`, the whitespace-collapsing
  replacement `CollapseIn` and their composition `Clean`. `Clean` runs the
  replacement over the range that `Trim` keeps, which is proved equal to
  running it over the trimmed copy (`CleanIsTrimThenReplace`). These are pure functions
  over character scanners. `Words` is the reference they are measured
  against: the cleaned text is always the words of the description joined
  by single spaces, and it is in a normal form, `Normal`. `JoinWith` is
  `joinToString`.
- `SentenceSplit` (`SentenceSplit.dfy`) models the regular-expression
  split as a scanner. `NextCut` looks for the next position where a
  match can start (one that satisfies `CutAt`); the split drops the whole
  whitespace run there and carries on.
  The empty-string filter is `NonEmptyOnly`.
- `ParagraphFormatter` (`Paragraphs.dfy`) has three parts:
  - the reference functions `Chunks`, `Paragraphs` and `Formatted`;
  - the method `GroupIntoParagraphs`, whose `while` loop mirrors the
    source's step-3 loop;
  - the method `FormatIntoReadableParagraphs`, which chains the three
    steps and whose final `if` mirrors the fallback.
- `Examples` (`Examples.dfy`) holds worked cases on concrete text.
- `Sequences` (`Sequences.dfy`) holds generic facts about slicing and
  concatenation that the other proofs use.

What is proved:

- The cleaned text is normal: only single spaces, and none at either end.
- Cuts happen only at whitespace right after a terminator, so "?!" and
  "3.5" never cut.
- No sentence is empty.
- n sentences give ceil(n/3) paragraphs. Every paragraph but the last holds
  exactly three sentences, in order, and the last holds one to three.
- Empty or all-whitespace input gives no paragraph; any other input gives
  at least one.
- The paragraphs joined with a space give back the cleaned text.
- The fallback branch can never fire.

On a description that is one sentence with no whitespace after a
terminator, the split finds no match and returns the whole text as its only
fragment. So the loop already yields `[cleaned]`, and the fallback branch
is never the path taken. The model follows this behaviour of the code
(`SingleSentence`, `FallbackNeverFires`).

## Model

| member | source | states |
|---|---|---|
| Cleaning.Trim | app/src/main/java/eu/rtech/recipeapp/CategoryDetailscreen.kt:329 | `trim()` yields a text with no whitespace at either end, everything it cuts off is whitespace, and what it keeps is the contiguous middle of the input |
| Cleaning.TrimEmptyIff | app/src/main/java/eu/rtech/recipeapp/CategoryDetailscreen.kt:329 | the trimmed text is empty exactly when the description is empty or all whitespace |
| Cleaning.CollapseIn | app/src/main/java/eu/rtech/recipeapp/CategoryDetailscreen.kt:330 | the replacement writes no more characters than it reads, is empty only for an empty range, turns a leading run into a space and copies any other first character, and leaves only plain spaces, never two in a row |
| Cleaning.TrimKeepsWords | app/src/main/java/eu/rtech/recipeapp/CategoryDetailscreen.kt:329 | the whitespace `trim()` cuts off holds no word: the kept range has the same words as the whole description |
| Cleaning.Clean | app/src/main/java/eu/rtech/recipeapp/CategoryDetailscreen.kt:329-330 | the cleaned description is in normal form (every whitespace is a single interior space), is empty exactly when the input is all whitespace, and equals the words of the description joined by single spaces |
| Cleaning.CollapseShift | app/src/main/java/eu/rtech/recipeapp/CategoryDetailscreen.kt:330 | the replacement run over a slice of the text writes exactly what it writes over the same range of the whole text |
| Cleaning.CleanIsTrimThenReplace | app/src/main/java/eu/rtech/recipeapp/CategoryDetailscreen.kt:329-330 | the cleaned description is literally the replacement run over the result of `trim()` |
| Cleaning.CollapseWords | app/src/main/java/eu/rtech/recipeapp/CategoryDetailscreen.kt:330 | on text with no whitespace at either end, replacing each whitespace run by one space writes its maximal whitespace-free runs joined by single spaces |
| Cleaning.JoinWithPrefix | app/src/main/java/eu/rtech/recipeapp/CategoryDetailscreen.kt:338 | `joinToString` starts with the first element |
| Cleaning.JoinWithSuffix | app/src/main/java/eu/rtech/recipeapp/CategoryDetailscreen.kt:338 | `joinToString` ends with the last element |
| Cleaning.JoinWithLength | app/src/main/java/eu/rtech/recipeapp/CategoryDetailscreen.kt:338 | `joinToString` of no element is empty; otherwise its length is the elements' total length plus one separator per gap |
| Cleaning.JoinedWordsNormal | app/src/main/java/eu/rtech/recipeapp/CategoryDetailscreen.kt:330 | non-empty whitespace-free words joined by single spaces form a text in normal form, and a non-empty one when there is a word |
| Cleaning.CollapseNormal | app/src/main/java/eu/rtech/recipeapp/CategoryDetailscreen.kt:330 | on text already in normal form the replacement changes nothing |
| Cleaning.CleanOfNormal | app/src/main/java/eu/rtech/recipeapp/CategoryDetailscreen.kt:329-330 | text in normal form is its own cleaning |
| Cleaning.CleanIdempotent | app/src/main/java/eu/rtech/recipeapp/CategoryDetailscreen.kt:329-330 | cleaning a cleaned description changes nothing |
| SentenceSplit.NextCut | app/src/main/java/eu/rtech/recipeapp/CategoryDetailscreen.kt:331 | the next separator match is found at the first whitespace that follows a terminator, with no match before it, or at the end of the text |
| SentenceSplit.SplitFrom | app/src/main/java/eu/rtech/recipeapp/CategoryDetailscreen.kt:331 | `split` always returns at least one fragment, including for the empty text |
| SentenceSplit.NonEmptyOnly | app/src/main/java/eu/rtech/recipeapp/CategoryDetailscreen.kt:332 | the filter keeps exactly the non-empty fragments, and keeps the list unchanged when none is empty |
| SentenceSplit.NonEmptyOnlyCounts | app/src/main/java/eu/rtech/recipeapp/CategoryDetailscreen.kt:332 | the filter keeps each non-empty fragment as many times as it occurs and drops every empty one |
| SentenceSplit.NonEmptyOnlyAppend | app/src/main/java/eu/rtech/recipeapp/CategoryDetailscreen.kt:332 | filtering a concatenation concatenates the filtered parts, so the kept fragments stay in order |
| SentenceSplit.Sentences | app/src/main/java/eu/rtech/recipeapp/CategoryDetailscreen.kt:331-332 | every sentence is one of the split's fragments, non-empty, with no whitespace after a terminator inside it |
| SentenceSplit.SplitCuts | app/src/main/java/eu/rtech/recipeapp/CategoryDetailscreen.kt:331 | no fragment contains whitespace after a terminator, so "?!" or "3.5" never cut; every fragment but the last is non-empty and ends with the terminator that caused its cut |
| SentenceSplit.SplitNormal | app/src/main/java/eu/rtech/recipeapp/CategoryDetailscreen.kt:331 | on non-empty cleaned text, from any word start on, every fragment is non-empty, and the fragments joined with single spaces give back the text |
| SentenceSplit.SentencesOfClean | app/src/main/java/eu/rtech/recipeapp/CategoryDetailscreen.kt:329-332 | the cleaned empty text has no sentences; any other cleaned text has sentences equal to its split fragments, none empty, none cut inside, and joined with spaces they give the text back |
| SentenceSplit.SingleSentence | app/src/main/java/eu/rtech/recipeapp/CategoryDetailscreen.kt:331-332 | a cleaned non-empty text with no whitespace after a terminator is one sentence, the text itself |
| ParagraphFormatter.ChunksShape | app/src/main/java/eu/rtech/recipeapp/CategoryDetailscreen.kt:334-340 | n sentences form ceil(n/3) groups; every group holds one to three sentences and every group but the last exactly three |
| ParagraphFormatter.GroupIntoParagraphs | app/src/main/java/eu/rtech/recipeapp/CategoryDetailscreen.kt:333-340 | the step-3 loop returns the paragraphs of the sentence list: group k of the chunked sentences, joined with single spaces, for each k in order |
| ParagraphFormatter.FormatIntoReadableParagraphs | app/src/main/java/eu/rtech/recipeapp/CategoryDetailscreen.kt:328-347 | the loop and the fallback return the grouped paragraphs of the cleaned sentences; the result is empty exactly when the description is all whitespace, and joining it with spaces gives the cleaned description |
| ParagraphFormatter.ChunksAppend | app/src/main/java/eu/rtech/recipeapp/CategoryDetailscreen.kt:336-339 | grouping a list whose length is a multiple of three and then more sentences groups the two parts separately |
| ParagraphFormatter.ParagraphsStep | app/src/main/java/eu/rtech/recipeapp/CategoryDetailscreen.kt:336-339 | one loop step appends exactly the paragraph of sentences i to min(i + 3, n) to the paragraphs built so far |
| ParagraphFormatter.ChunkAt | app/src/main/java/eu/rtech/recipeapp/CategoryDetailscreen.kt:336-338 | group k is exactly sentences 3k up to min(3k + 3, n) |
| ParagraphFormatter.ChunksFlatten | app/src/main/java/eu/rtech/recipeapp/CategoryDetailscreen.kt:336-339 | the groups laid end to end are the sentence list: none dropped, duplicated or reordered |
| ParagraphFormatter.JoinWithAppend | app/src/main/java/eu/rtech/recipeapp/CategoryDetailscreen.kt:338 | joining two non-empty lists in one go equals joining each and putting the separator between the two joins |
| ParagraphFormatter.ParagraphsJoin | app/src/main/java/eu/rtech/recipeapp/CategoryDetailscreen.kt:334-340 | the paragraphs joined with a space equal the sentences joined with a space |
| ParagraphFormatter.FallbackNeverFires | app/src/main/java/eu/rtech/recipeapp/CategoryDetailscreen.kt:342-344 | a non-empty cleaned text always yields at least one paragraph, so the fallback is redundant; for a single sentence the loop already returns the cleaned text |
| ParagraphFormatter.FormattedCount | app/src/main/java/eu/rtech/recipeapp/CategoryDetailscreen.kt:328-347 | all-whitespace input gives no paragraph, other input has at least one sentence, and the paragraph count is ceil(n/3) |
| ParagraphFormatter.FormattedParagraph | app/src/main/java/eu/rtech/recipeapp/CategoryDetailscreen.kt:335-339 | paragraph k joins sentences 3k to min(3k + 3, n) in order, and every paragraph but the last holds three sentences |
| ParagraphFormatter.FormattedRoundTrip | app/src/main/java/eu/rtech/recipeapp/CategoryDetailscreen.kt:328-347 | for every description, the paragraphs joined with a space give back the cleaned description |
| ParagraphFormatter.SameWordsSameParagraphs | app/src/main/java/eu/rtech/recipeapp/CategoryDetailscreen.kt:329-330 | descriptions with the same words, however much whitespace separates or surrounds them, are formatted alike |
| Examples.SplitKeepsDecimalsAndRuns | app/src/main/java/eu/rtech/recipeapp/CategoryDetailscreen.kt:331 | "Pi 3.5?! Ok." splits into "Pi 3.5?!" and "Ok.": neither the "." of "3.5" nor the "?" of "?!" cuts |
| Examples.FiveSentencesTwoParagraphs | app/src/main/java/eu/rtech/recipeapp/CategoryDetailscreen.kt:334-340 | five sentences give a paragraph of three and a paragraph of two |

## Left out

- Whitespace: Kotlin's `trim()` removes Unicode whitespace (`isWhitespace`), while `\s` in a Java regular expression matches only space, tab, line feed, vertical tab, form feed and carriage return. The model uses that ASCII set for both steps. So a description that begins or ends with other Unicode whitespace, such as U+2003, is trimmed in the app but not in the model.
- The regular-expression engine is not modelled. Its two expressions are modelled as scanners that match what the engine matches (`SkipSpace`, `CollapseIn`, `NextCut`, `SplitFrom`).
- The grouping loop is a method of its own, `GroupIntoParagraphs`, called by `FormatIntoReadableParagraphs`; in the app the loop is written inline.
- The mutable list `paragraphs` is modelled as a sequence that the method reassigns. Nothing else holds a reference to it before it is returned, so no aliasing is lost.
- The Compose UI (`CategoryDetailScreen`, `DescriptionParagraph` and all of `RecipeScreen.kt`): declarative layout with no logic to prove.
- The `isSaved` and `isFavorite` toggles: single, unpersisted boolean flips with no invariant.
- Navigation through `savedStateHandle` in `RecipeApp.kt` and the route constants in `Screen.kt`: framework plumbing and string literals.
- Coil image loading and the remote category fetch: foreign I/O. `MainViewModel` is not part of this model.
