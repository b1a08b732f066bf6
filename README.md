# Legal English video pipeline: a Dafny model

This project models the rules of the legal-english repository in Dafny. The
repository turns Japanese legal terms into short vertical videos.
Four parts of it are modelled:

- **The LawEnglish composition** (`src/LawEnglish/index.tsx`), in module
  `LawEnglish`:
  - a fixed table of five `<Sequence>` scenes on a 930-frame, 30 fps
    timeline (title, word, context, example, vocabulary);
  - the fade keyframes each scene hands to `interpolate`;
  - the five-frame stagger of the vocabulary items;
  - the colour theme chosen from the lesson's category by `getThemeStyle`.
- **The lesson generator** (`scripts/generate-input-gemini.ts`), in module
  `GenerateInput`:
  - the file name a category is stored under (`getCategoryFilename`);
  - the removal of a Markdown `json` code fence around the model's answer;
  - the collection of the words already present in the input files
    (`getExistingWords`);
  - the append loop, which adds each generated lesson to its category file
    unless the word is already there, ignoring case.
- **The queue behind the renderer** (`scripts/generate-video-from-input.ts`),
  in module `VideoFromInput`. The first `.json` file holding a non-empty
  array gives up its first element as the next lesson, and the file keeps
  the rest.
- **The audio clean-up** (`scripts/cleanup-audio.ts`), in module
  `CleanupAudio`. Six anchored regular expressions select the audio files of
  one video. Matching files are deleted and counted.

Shared modules:

- `Text` holds the JavaScript string operations the scripts rely on: `\s`
  and `trim()` with ECMAScript's exact white-space set, ASCII `toLowerCase`,
  `endsWith`, `includes`, and the prefix test behind the `^`-anchored
  regular expressions.
- `LessonData` holds the lesson record and an abstraction of what
  `fs.readJson` yields for one file.
- `Wrappers` holds `Option` and `Result`.

The file system is a parameter:

- A directory is `Option<seq<DirEntry>>`, which is `None` when it does not
  exist.
- The category files written by the generator are an
  `Option<map<string, FileContent>>`, which is `None` when the input
  directory does not exist.
- A file's content is one of three cases: unreadable (a missing file or
  invalid JSON), JSON that is not an array, or an array of elements.
- An element is one of three cases: `null`, a value that is not an object,
  or a lesson object.

The loops of the scripts are methods with loop invariants. Each is proved
equal to a specification function:

- `ExistingWords` against `WordsOfFiles`;
- `StoreGenerated` against `StoreAll`;
- `PopLesson` against `Pop`;
- `Cleanup` against `Deleted` and `Kept`.

Lemmas then prove what those functions mean.

Scene timing is fixed in the code rather than derived from audio durations.
The composition in `src/LawEnglish/index.tsx` uses the frame table `0/90`,
`90/180`, `270/210`, `480/210`, `690/240`, and `src/Root.tsx` registers 930
frames at 30 fps. The model uses these constants.

## Model

| member | source | states |
|---|---|---|
| LawEnglish.ThemeRules | src/LawEnglish/index.tsx:206-240 | Each palette is chosen exactly when its rule matches and no earlier rule did. The civil rule is "Civil Code" or 民法, then the companies rule ("Companies Act" or 会社法), then the criminal rule ("Criminal" or 刑法). The fallback palette equals the civil one. |
| LawEnglish.ThemeStyle | src/LawEnglish/index.tsx:206-240 | `getThemeStyle`: the civil, companies and criminal rules tried in that order on `includes`, then the default palette. `ThemeRules` states which palette each category gets. |
| LawEnglish.CivilWinsOverCriminal | src/LawEnglish/index.tsx:207-231 | A category naming both the Civil Code and criminal law gets the civil palette, because rules are tried in order. "Criminal Law (刑法)" gets the criminal palette. |
| LawEnglish.FadeKeyframes | src/LawEnglish/index.tsx:31-35 | The keyframe range `[0, 20, durationInFrames - 20, durationInFrames]` every scene gives `interpolate`. `FadeKeyframesIncreasing` says when it is valid. |
| LawEnglish.VocabularyGrid | src/LawEnglish/index.tsx:72-87 | `vocabularyList.map`: one cell per item with its index as key, its word and translation, and an entrance delay of `index * 5`. `VocabularyGridStaggers` states its shape. |
| LawEnglish.FadeKeyframesIncreasing | src/LawEnglish/index.tsx:31-35 | The input range `[0, 20, d - 20, d]` given to `interpolate` is strictly increasing exactly when the scene lasts more than 40 frames. |
| LawEnglish.VocabularyGridStaggers | src/LawEnglish/index.tsx:72-78 | The vocabulary grid has one cell per item, in order, keyed by index, with the item's texts. Entrance delays start at 0, grow by 5 frames per item and are strictly increasing. |
| LawEnglish.LawEnglishVideo | src/LawEnglish/index.tsx:242-267 | The composition is themed by `ThemeStyle` of the category. It has five sequences starting at frame 0, each beginning where the previous one ends, and their durations add up to the registered 930 frames. Each scene receives its sequence's duration, and every fade range is valid. Each scene shows its own props: title and category; word, reading and definitions; legal context; example; vocabulary grid. |
| LawEnglish.ContiguousEndsAtTotal | src/LawEnglish/index.tsx:247-267 | In a contiguous table the last sequence ends at the sum of all durations. |
| LawEnglish.ContiguousOrdered | src/LawEnglish/index.tsx:247-267 | In a contiguous table a sequence ends no later than any later one starts. |
| LawEnglish.EveryFrameInOneScene | src/LawEnglish/index.tsx:247-267 | Every frame before the end of a contiguous table is shown by exactly one sequence: no gap and no overlap. |
| LawEnglish.CompositionFramesCovered | src/Root.tsx:15-16 | Each of the 930 registered frames shows exactly one of the five scenes. |
| Text.TrimStart | scripts/generate-input-gemini.ts:65 | The leading half of `trim()` gives a suffix of its input. Everything removed is white space and the result does not start with white space. Input not starting with white space is returned unchanged. |
| Text.TrimEnd | scripts/generate-input-gemini.ts:65 | The trailing half of `trim()` gives a prefix of its input. Everything removed is white space and the result does not end with white space. Input not ending with white space is returned unchanged. |
| Text.Trim | scripts/generate-input-gemini.ts:65 | `trim()` is the leading trim followed by the trailing trim. The properties are proved about the two halves. |
| Text.ToLower | scripts/generate-input-gemini.ts:66 | `toLowerCase()` maps `A`-`Z` to `a`-`z` and keeps every other character. `LowerIsIdentityWithoutUpper` and `TwoWordStem` use it. |
| Text.LowerIsIdentityWithoutUpper | scripts/generate-input-gemini.ts:66 | Lower-casing text without upper-case ASCII letters changes nothing. |
| Text.TrimStartSkipsSpace | scripts/generate-input-gemini.ts:65 | White space put in front of a string is removed completely by the trim. |
| Text.TrimEndSkipsSpace | scripts/generate-input-gemini.ts:65 | White space put after a string is removed completely by the trim. |
| Text.TrimStartKeepsTail | scripts/generate-input-gemini.ts:65 | Once a non-space character has been met, the trim keeps everything after it. |
| GenerateInput.BeforeParen | scripts/generate-input-gemini.ts:65 | `split('(')[0]` is a prefix of the category without `(`. When shorter than the category, it is followed by `(`. |
| GenerateInput.ReplaceRuns | scripts/generate-input-gemini.ts:66 | `replace(/\s+/g, '_')` as a left-to-right scan that writes one `_` at the first character of each white-space run. The lemmas below state what it does. |
| GenerateInput.ReplaceRunsConcat | scripts/generate-input-gemini.ts:66 | Replacing `\s+` in a concatenation is replacing in the first part, then in the second part continuing the state the first left. |
| GenerateInput.ReplacedHasNoSpace | scripts/generate-input-gemini.ts:66 | After `replace(/\s+/g, '_')` no white space is left. |
| GenerateInput.NoSpaceUnchanged | scripts/generate-input-gemini.ts:66 | Text without white space is left unchanged by the replacement. |
| GenerateInput.RunGivesOneUnderscore | scripts/generate-input-gemini.ts:66 | A non-empty run of white space gives one underscore, or nothing when it continues a run. |
| GenerateInput.SpaceRunBecomesOneUnderscore | scripts/generate-input-gemini.ts:66 | Each maximal white-space run between two other parts becomes exactly one underscore, and both parts are replaced on their own. |
| GenerateInput.KeepSnakeChars | scripts/generate-input-gemini.ts:66 | `replace(/[^a-z0-9_]/g, '')` leaves only `[a-z0-9_]`, is the identity on such text, and never lengthens. On one character it keeps the character exactly when it is in `[a-z0-9_]`, and drops it otherwise. |
| GenerateInput.KeepSnakeCharsConcat | scripts/generate-input-gemini.ts:66 | The filter works character by character: filtering a concatenation is filtering each part. With the one-character clause this determines the filter completely, so the kept characters stay in their order. |
| GenerateInput.Normalize | scripts/generate-input-gemini.ts:65-66 | Trim, lower-case, runs of white space to `_`, then drop everything outside `[a-z0-9_]`, in the source's order. |
| GenerateInput.CategoryStem | scripts/generate-input-gemini.ts:65-66 | The normalised text before the first `(`. |
| GenerateInput.CategoryFilename | scripts/generate-input-gemini.ts:59-68 | The file name ends in `.json` and its stem consists of `[a-z0-9_]` only. |
| GenerateInput.NormalizeIdempotent | scripts/generate-input-gemini.ts:65-66 | Normalising a normalised stem changes nothing. |
| GenerateInput.StemNamesItsOwnFile | scripts/generate-input-gemini.ts:59-68 | A stem, used as a category, gives the same stem and the same file name as the category it came from. |
| GenerateInput.OnlyTextBeforeParenMatters | scripts/generate-input-gemini.ts:65 | Whatever follows the first `(` does not affect the file name. |
| GenerateInput.LeadingSpaceIgnored | scripts/generate-input-gemini.ts:65 | White space before a category does not affect the file name. |
| GenerateInput.TrailingSpaceIgnored | scripts/generate-input-gemini.ts:65 | White space at the end of the text before `(` does not affect the file name. |
| GenerateInput.TwoWordStem | scripts/generate-input-gemini.ts:65-66 | Two words of ASCII letters joined by a space normalise to their lower-case forms joined by `_`. |
| GenerateInput.TwoWordCategory | scripts/generate-input-gemini.ts:59-68 | "A B (remark)" with two words of ASCII letters is filed under `a_b.json`, in lower case. |
| GenerateInput.CivilCodeFile | scripts/generate-input-gemini.ts:61 | "Civil Code (…)" is filed under `civil_code.json`, whatever the remark. |
| GenerateInput.CivilProcedureFile | scripts/generate-input-gemini.ts:62 | "Civil Procedure (…)" is filed under `civil_procedure.json`, whatever the remark. |
| GenerateInput.StripLeadingFence | scripts/generate-input-gemini.ts:106 | The first `replace` changes the text exactly when it starts with "```json". It then removes that fence and all white space after it, and nothing more. The result is a suffix of the text. |
| GenerateInput.StripTrailingFence | scripts/generate-input-gemini.ts:106 | The second `replace` changes the text exactly when it ends with "```". It then removes that fence and the whole white-space run before it, and nothing more. The result is a prefix of the text. |
| GenerateInput.StripFences | scripts/generate-input-gemini.ts:106 | The two `replace` calls in order: the opening fence first, then the closing one. |
| GenerateInput.UnfencedTextUnchanged | scripts/generate-input-gemini.ts:106 | Text with neither fence passes through unchanged. |
| GenerateInput.StripFencesUndoesFence | scripts/generate-input-gemini.ts:106 | The clean-up recovers a body wrapped as "```json\n" + body + "\n```", when the body is empty or neither starts nor ends with white space. |
| GenerateInput.EmptyFenceRemoved | scripts/generate-input-gemini.ts:106 | An empty fenced answer "```json\n\n```" becomes the empty string. |
| GenerateInput.ExistingWords | scripts/generate-input-gemini.ts:39-57 | `getExistingWords` returns no words for a missing directory, and otherwise exactly the set specified by `WordsOfFiles`. |
| GenerateInput.WordsOfEntries | scripts/generate-input-gemini.ts:47-50 | The words one array contributes in `forEach`: the lower-cased truthy `word` of each object, skipping non-objects, up to the first `null`, which throws. |
| GenerateInput.WordsOfFiles | scripts/generate-input-gemini.ts:43-55 | The union of the words of every `.json` file whose content is an array. Unreadable and non-array files contribute nothing. |
| GenerateInput.WordsOfEntriesExactly | scripts/generate-input-gemini.ts:47-50 | An array contributes exactly the lower-cased non-empty words of the objects before its first `null`. Reading `word` on `null` throws and abandons the file. |
| GenerateInput.CollectedWordsExactly | scripts/generate-input-gemini.ts:43-55 | A word is collected exactly when some object of some `.json` file holding an array contributes it. Other files contribute nothing. |
| GenerateInput.FindDuplicate | scripts/generate-input-gemini.ts:133 | `fileContent.some(existing => existing.word.toLowerCase() === item.word.toLowerCase())`: it stops at the first match and throws on an element without a `word`. `FindDuplicateMeaning` states its three outcomes. |
| GenerateInput.StoreAt | scripts/generate-input-gemini.ts:117-139 | One turn on the category file. Non-array JSON throws at `some`. A missing or unreadable file starts from `[]`. The lesson is appended unless its word is found. |
| GenerateInput.StoreAll | scripts/generate-input-gemini.ts:116-140 | The turns for all lessons in order, in an existing directory. The first error ends the run with the files written so far. |
| GenerateInput.StoreAllIn | scripts/generate-input-gemini.ts:116-140 | The loop on the input directory. When the directory is missing, the first lesson's `writeJson` throws, since it creates no directory. |
| GenerateInput.FindDuplicateMeaning | scripts/generate-input-gemini.ts:133 | The `some` check answers in one of three ways. It finds a match exactly when an object with the same word (ignoring case) comes before any non-object element. It throws exactly when a non-object element comes first. It finds none exactly when every element is an object with a different word. |
| GenerateInput.StoreAtEffect | scripts/generate-input-gemini.ts:117-139 | A turn of the loop fails exactly when the category file holds non-array JSON, or a non-object element precedes any match. On success only the category file changes. It then holds the word, and is the old array if the word was there, else the old array plus the lesson. Unreadable or missing files count as empty. |
| GenerateInput.StoreAtIdempotent | scripts/generate-input-gemini.ts:132-139 | Storing the same lesson a second time changes nothing. |
| GenerateInput.AppendedWordIsFound | scripts/generate-input-gemini.ts:133-134 | After the lesson is pushed, the duplicate check finds its word. |
| GenerateInput.StoreAtExtends | scripts/generate-input-gemini.ts:120-135 | A successful turn keeps every array file's old elements as a prefix. |
| GenerateInput.StoreGenerated | scripts/generate-input-gemini.ts:116-140 | The append loop over the generated lessons ends in the state `StoreAllIn` specifies. A missing directory or the first error stops it. |
| GenerateInput.StoreAllInCompletes | scripts/generate-input-gemini.ts:116-140 | The run completes exactly when there is nothing to store, or the directory exists and every turn succeeds. Without the directory no file is written. |
| GenerateInput.StoreAllExtends | scripts/generate-input-gemini.ts:116-140 | The whole loop only appends: every array file keeps its old elements as a prefix. |
| GenerateInput.StoreAllRecordsEveryItem | scripts/generate-input-gemini.ts:116-140 | When the loop completes, every generated lesson's word is in its category file. |
| GenerateInput.StoreAtKeepsDistinct | scripts/generate-input-gemini.ts:132-139 | On a directory of arrays of objects with pairwise distinct words (ignoring case), a turn always succeeds and preserves that property. |
| GenerateInput.StoreAllKeepsDistinct | scripts/generate-input-gemini.ts:116-140 | On such a directory the loop always completes and leaves no duplicate word in any file. |
| VideoFromInput.Pop | scripts/generate-video-from-input.ts:12-48 | A lesson is taken only from an existing directory, at a `.json` file holding a non-empty array. |
| VideoFromInput.JsonCount | scripts/generate-video-from-input.ts:17-22 | The length of `files.filter(f => f.endsWith('.json'))`. |
| VideoFromInput.FirstQualifying | scripts/generate-video-from-input.ts:30-43 | The `for … break` scan: the index of the first `.json` file whose content is a non-empty array. |
| VideoFromInput.AfterPop | scripts/generate-video-from-input.ts:37 | The selected file rewritten to `content.slice(1)`, every other file unchanged. |
| VideoFromInput.PopLesson | scripts/generate-video-from-input.ts:12-54 | The checks, the counting of `.json` names and the scan for the first non-empty array give the outcome `Pop` specifies. |
| VideoFromInput.FirstQualifyingIsFirst | scripts/generate-video-from-input.ts:30-43 | The scan finds nothing exactly when no file qualifies. Otherwise it stops at the first qualifying file. |
| VideoFromInput.FirstQualifyingIsUnique | scripts/generate-video-from-input.ts:30-43 | There is at most one first qualifying file. |
| VideoFromInput.NoJsonCounted | scripts/generate-video-from-input.ts:17-22 | The count of `.json` names is zero exactly when the listing has none. |
| VideoFromInput.PopMeaning | scripts/generate-video-from-input.ts:12-48 | Each error is stated as an if-and-only-if: no directory; no `.json` name; no qualifying file or a falsy first element. A lesson is taken exactly when the first qualifying file starts with a truthy element. It is that element, and only that file changes, to `slice(1)`. |
| VideoFromInput.PopTakesExactlyOne | scripts/generate-video-from-input.ts:34-54 | A pop removes exactly one queued element. The popped file reads as the lesson followed by what is left, and every other file is unchanged. |
| VideoFromInput.PendingAfterPop | scripts/generate-video-from-input.ts:37 | Rewriting the selected file with `slice(1)` lowers the number of queued lessons by one. |
| VideoFromInput.NextPopNeverGoesBack | scripts/generate-video-from-input.ts:30-39 | The next run never selects an earlier file than this run did. |
| VideoFromInput.NextPopTakesSecondElement | scripts/generate-video-from-input.ts:36-37 | When the file has a truthy second element, the next run takes it from the same file. |
| CleanupAudio.Cleanup | scripts/cleanup-audio.ts:18-39 | A missing directory deletes nothing. Otherwise the loop unlinks exactly `Deleted(files)`, keeps `Kept(files)`, and the count is the number of unlinked files. |
| CleanupAudio.Matches | scripts/cleanup-audio.ts:9-16 | `pattern.test(file)` for `^name$` and `^prefix.*suffix$`. The whole name is matched, case-sensitively, and `.` matches no line terminator. |
| CleanupAudio.SomeMatches | scripts/cleanup-audio.ts:30 | `patterns.some(pattern => pattern.test(file))`. |
| CleanupAudio.ShouldDelete | scripts/cleanup-audio.ts:30 | The test of one name against `PATTERNS_TO_DELETE`. |
| CleanupAudio.Deleted | scripts/cleanup-audio.ts:29-36 | The names the loop unlinks, in listing order. |
| CleanupAudio.Kept | scripts/cleanup-audio.ts:29-36 | The names the loop leaves, in listing order. |
| CleanupAudio.SomeMatchesExactly | scripts/cleanup-audio.ts:30 | `some` holds exactly when one of the patterns matches. |
| CleanupAudio.CleanupPartitions | scripts/cleanup-audio.ts:29-36 | Every unlinked name matches, every kept name does not, and together they are the listing as a multiset. |
| CleanupAudio.CleanupCountsAdd | scripts/cleanup-audio.ts:27-35 | The deleted and kept counts add up to the number of listed names. |
| CleanupAudio.DeletedExactly | scripts/cleanup-audio.ts:29-35 | A name is unlinked exactly when it is listed and matches, and kept exactly when it is listed and does not match. |
| CleanupAudio.DeletedCountsMatches | scripts/cleanup-audio.ts:27-38 | The reported count is the number of listing positions holding a matching name. |
| CleanupAudio.WildcardMatches | scripts/cleanup-audio.ts:11-15 | `^prefix.*suffix$` matches the prefix, any text without a line terminator, and the suffix. |
| CleanupAudio.DecimalString | scripts/generate-audio.ts:87 | `${i}` writes a non-empty string of decimal digits. |
| CleanupAudio.GeneratedAudioIsDeleted | scripts/generate-audio.ts:65-89 | Every file name the audio generator writes for a lesson with any number of vocabulary items is deleted by the clean-up. |
| CleanupAudio.WildcardNameDeleted | scripts/cleanup-audio.ts:11-15 | A name made of one of the `.*` prefixes, text without line terminators and ".mp3" is deleted. |
| CleanupAudio.DeletedNamesEndInMp3 | scripts/cleanup-audio.ts:9-16 | Only names ending in ".mp3" are deleted. |
| CleanupAudio.DeletedNamesStartWithPrefix | scripts/cleanup-audio.ts:9-16 | A deleted name is "title.mp3" or starts with the prefix of one of the other patterns. |
| CleanupAudio.NoPrefixKept | scripts/cleanup-audio.ts:9-16 | A name other than "title.mp3" that starts with none of the prefixes is kept. |
| CleanupAudio.NoSuffixKept | scripts/cleanup-audio.ts:9-16 | A name not ending in ".mp3" is kept. |
| CleanupAudio.ExampleNamesDeleted | scripts/cleanup-audio.ts:10-15 | "title.mp3", "word.mp3" (empty `.*`) and "vocab_3.mp3" are deleted. |
| CleanupAudio.LongerTitleKept | scripts/cleanup-audio.ts:10 | "title2.mp3" is kept: the title pattern is exact. |
| CleanupAudio.PrefixedTitleKept | scripts/cleanup-audio.ts:10 | "subtitle.mp3" is kept: the pattern is anchored at the start. |
| CleanupAudio.VocabWithoutUnderscoreKept | scripts/cleanup-audio.ts:15 | "vocab3.mp3" is kept: the vocabulary pattern needs the underscore. |
| CleanupAudio.TrailingTextKept | scripts/cleanup-audio.ts:11 | "word_en.mp3.bak" is kept: the pattern is anchored at the end. |
| CleanupAudio.CapitalisedNameKept | scripts/cleanup-audio.ts:10 | "Title.mp3" is kept: matching is case-sensitive. |

## Left out

- The calls to the Gemini model and `JSON.parse` of its answer are left
  out. The generated lessons enter `StoreGenerated` as a parameter. The
  "not an array" check on the parsed answer is not modelled.
- The two writes of `scripts/generate-video-from-input.ts` are left out: the
  lesson to `src/data/law-english-data.json` and the rest to the input file.
  The rewritten listing is returned as data instead.
- The `execSync` calls to audio generation, rendering and clean-up are left
  out. Console logging and `process.exit` are modelled as outcome values.
- The file system is abstracted:
  - `fs.existsSync`, `readdirSync` and `readJson` are replaced by the
    directory parameter and `FileContent`;
  - a thrown read is `Unreadable`;
  - `fs.unlink` is the `Deleted` sequence the method returns, and
    `fs.writeJson` is the new map the append loop returns;
  - concurrent changes to the directory are not modelled.
- A lesson object's `word` is always a string in the model, so objects
  whose `word` is missing or not a string are not represented. In
  `getExistingWords` (generate-input-gemini.ts:49), such an object with a
  falsy `word` is skipped, and one with a truthy non-string `word` throws in
  `toLowerCase`, which abandons the rest of its file. In `main`'s duplicate
  check (line 133), `existing.word.toLowerCase()` throws on any such object,
  as it does on an element that is not an object.
- `Text.ToLower` maps only ASCII letters. JavaScript's full Unicode case
  mapping is not modelled.
- `Text.IsSpace` lists the ECMAScript white-space and line-terminator code
  points of one Unicode version. Later additions to the space category are
  not tracked.
- The animation values are left out: `spring`, the output ranges of
  `interpolate`, scales, slides and the floating-point `ProgressBar`. Only
  the keyframe ranges and delays are modelled.
- The markup, CSS and fonts of the scenes are left out. The scenes are
  modelled as the data each `<Sequence>` renders.
- `scripts/generate-audio.ts` is not part of this model. Only the file names
  it writes, at lines 65-89, are used to state `GeneratedAudioIsDeleted`.
- `scripts/upload-youtube.ts` is not part of this model.
- `src/Root.tsx` contributes only its duration and frame-rate constants.
- GenerateInput.StripFencesUndoesFence: stated for bodies that are empty or
  neither start nor end with white space. The clean-up also removes white
  space next to the fences, so a body with white space at either end loses
  it.
- GenerateInput.StoreGenerated: a failing `writeJson` in an existing
  directory is not modelled. Such a failure would come from permissions, a
  full disk or a category file name that is a directory. Only the missing
  input directory makes a write fail.
- CleanupAudio.Cleanup: a rejected `fs.unlink` (cleanup-audio.ts:32) is not
  modelled. In the script it aborts the loop before the count is logged.
  The method always unlinks every matching name.
- GenerateInput.CivilCodeFile: the words "Civil" and "Code" are passed as
  parameters equal to those literals, and the remark is arbitrary.
  `CivilProcedureFile` is stated the same way.
- GenerateInput.TwoWordCategory: stated for two words of ASCII letters only.
  Other categories are covered by the general lemmas on white space,
  parentheses and idempotence.
