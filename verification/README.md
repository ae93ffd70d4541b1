# Mock tests, seeds and lesson progress: a Dafny model

This project models the pure core of a Next.js/Supabase learning platform:
its admin tools for mock tests and units, the lesson player, and the seed
rewriter that brings old `mock_tests` seed files up to the current schema.
Everything is written as immutable datatypes and total functions. Database
reads, the signed-in user and every other outside answer become parameters.

- **Seed rewriter.** `transform_seeds_v2.py` is covered by `SeedRewriter` and `ValueSplitter`:
  - locating `INSERT INTO mock_tests (...) VALUES (...);` statements;
  - splitting the column list, and splitting the value list with the quote- and depth-tracking scanner;
  - pairing by position and dropping the seven deprecated columns;
  - laying out the canonical statement.

  `SplitValues` is the script's loop with its invariant. `Values` is the recursive reference it is proved equal to.
- **Mock-test form.**
  - `MockTestForm` covers the defaults, the database-to-form normaliser, the question count and the validator with its first-failure order and messages.
  - `QuestionCard`, `ProblemCard` and `SectionCard` cover the list edits of the form cards.
- **Formatting.**
  - `Formatters` covers `formatters.ts`.
  - `Utils` covers `utils.ts`.
  - `Levels` covers the level curve of `mock-data.ts`.
  - `JsMath` holds `Math.round` and the percentage rule.
  - `Text` holds strings: strip/trim, split, join, digits and UTF-16.
- **Lessons.**
  - `LessonUtils` covers the sidebar, course progress and navigation links.
  - `QuizState` covers the quiz player's state transitions.
  - `LessonPlayer` covers the lesson-player context's reducers.
  - `LessonContentProgress` and `LessonStepProgress` cover the content-XP, rewatch and step-completion rules of the server actions.
- **Units.**
  - `UnitList` covers consecutive-run grouping, drag and delete.
  - `UnitsAccordion` covers key grouping, row numbering and the page switcher.
  - `UnitActions` covers slugs, content suggestions, course summaries, `getUnit` and `deleteUnit`.
  - `Sorting` is the stable sort those use.
  - `Grouping` is key grouping in order of first appearance.
- **Page controls, math text and rewards.**
  - `CoursesPagination` covers the page and ellipsis bar.
  - `MathText` covers the `$$…$$`/`$…$` segmenter and `hasMath`.
  - `MockTestActions` covers the mock-test XP formula, answer validation and the saved-answer map.
  - `UnitContentMilestone` covers the unit-content milestone claim.
- **Shared helpers.** `Lists` and `Wrappers` hold generic list facts and `Option`.

Where the code and its documentation disagree, the model follows the code:

- The value splitter tracks quotes and parentheses only. Square brackets are ordinary characters, so `ARRAY[1,2]` splits into `ARRAY[1` and `2]`.
- Columns and values whose counts differ are paired by `zip`, which silently drops the surplus. The statement is not skipped.
- `MathText` handles only `$$…$$` and `$…$`. Its doc comment also advertises `\(…\)` and `\[…\]`, which the code does not implement.

JavaScript and Python numbers are modelled as follows:

- Ratios and percentages are exact rationals or integer inequalities.
- A JavaScript string's length and `slice` count UTF-16 code units (`Text.Utf16`).
- Python's `str.strip` and JavaScript's `trim` each use their own whitespace set.

## Model

| member | source | states |
|---|---|---|
| SeedRewriter.MatchAt | supabase/seeds/eysh/transform_seeds_v2.py:16 | a statement match starts with `INSERT INTO mock_tests` and ends in `);`; no match without the keyword |
| SeedRewriter.MatchAtExtends | supabase/seeds/eysh/transform_seeds_v2.py:16 | the statement ends at the first `;` after `VALUES (`: whatever follows a match cannot change it |
| SeedRewriter.ColsSearchLeftmost | supabase/seeds/eysh/transform_seeds_v2.py:22-24 | the column search returns the leftmost `(…) VALUES` group |
| SeedRewriter.ValsSearchLeftmost | supabase/seeds/eysh/transform_seeds_v2.py:29-31 | the value search returns the leftmost `VALUES (` group, which runs up to the last `)` |
| SeedRewriter.ColumnsShape | supabase/seeds/eysh/transform_seeds_v2.py:36-37 | every column is a non-empty, stripped name without commas; empty entries are gone |
| SeedRewriter.Zip | supabase/seeds/eysh/transform_seeds_v2.py:68 | pairs by position, as many as the shorter list: surplus columns or values are dropped |
| SeedRewriter.KeepCurrent | supabase/seeds/eysh/transform_seeds_v2.py:71-81 | a pair survives exactly when its column is not one of the seven deprecated names; nothing is dropped when none is deprecated |
| SeedRewriter.KeepCurrentAppend | supabase/seeds/eysh/transform_seeds_v2.py:81 | the filter works piece by piece, so surviving pairs keep their relative order |
| SeedRewriter.ParseShape | supabase/seeds/eysh/transform_seeds_v2.py:35-81 | every pair read from a statement has a clean column name and a stripped value |
| SeedRewriter.ZipUnzip | supabase/seeds/eysh/transform_seeds_v2.py:87-88 | splitting pairs into columns and values and zipping them again gives the pairs back |
| SeedRewriter.ParseRender | supabase/seeds/eysh/transform_seeds_v2.py:22-96 | reading back a laid-out statement with a non-empty last value gives exactly the pairs it was written from |
| SeedRewriter.ReplaceRender | supabase/seeds/eysh/transform_seeds_v2.py:18-96 | the replacement leaves an already canonical statement unchanged |
| SeedRewriter.TransformCopies | supabase/seeds/eysh/transform_seeds_v2.py:98 | text where no statement starts is copied verbatim, and the scan carries on after it |
| SeedRewriter.TransformPlain | supabase/seeds/eysh/transform_seeds_v2.py:16-98 | a file that never mentions `INSERT INTO mock_tests` passes through unchanged |
| SeedRewriter.TransformRender | supabase/seeds/eysh/transform_seeds_v2.py:98 | a canonical statement is copied whatever follows it, and the scan resumes after it |
| SeedRewriter.TransformWhole | supabase/seeds/eysh/transform_seeds_v2.py:16-98 | a text that is exactly one statement is replaced as one unit by `replace_insert` |
| SeedRewriter.StatementTwice | supabase/seeds/eysh/transform_seeds_v2.py:18-98 | one statement whose kept pairs are canonical is rewritten to their layout, and a second pass changes nothing |
| SeedRewriter.TransformFixed | supabase/seeds/eysh/transform_seeds_v2.py:98 | a file made of keyword-free gaps and canonical statements is a fixed point of the rewrite |
| SeedRewriter.TransformRaw | supabase/seeds/eysh/transform_seeds_v2.py:98 | over a whole file, every statement is replaced by the layout of the pairs it keeps, and every gap is copied |
| SeedRewriter.TransformIdempotent | supabase/seeds/eysh/transform_seeds_v2.py:16-98 | running the script again on its own output changes nothing, for files whose kept values are canonical |
| SeedRewriter.RenderDropsEmptyLast | supabase/seeds/eysh/transform_seeds_v2.py:64-65 | a laid-out statement whose last value is empty reads back one pair short |
| SeedRewriter.ReplaceDropsEmptyLast | supabase/seeds/eysh/transform_seeds_v2.py:64-96 | as written, the replacement rewrites such a statement again, one pair shorter |
| SeedRewriter.TransformDropsEmptyLast | supabase/seeds/eysh/transform_seeds_v2.py:64-98 | as written, the whole-file rewrite changes such a statement on a second pass |
| SeedRewriter.TrailingEmptyNotIdempotent | supabase/seeds/eysh/transform_seeds_v2.py:64-98 | the laid-out statement with columns `a, b, c` and values `1`, empty, empty loses `c` on the next pass and `b` on the one after |
| SeedRewriter.ReplaceKeepingLastRender | supabase/seeds/eysh/transform_seeds_v2.py:64-96 | corrected: with the final value kept even when empty, every laid-out statement is a fixed point |
| SeedRewriter.KeepingLastReplaceAgrees | supabase/seeds/eysh/transform_seeds_v2.py:64-65 | the corrected replacement agrees with the script whenever the final value is not blank |
| ValueSplitter.Step | supabase/seeds/eysh/transform_seeds_v2.py:47-62 | a quote opens a string outside one and closes only the string its own kind opened; inside a string nothing else changes the state; outside, `(` and `)` move the depth by one |
| ValueSplitter.PiecesJoin | supabase/seeds/eysh/transform_seeds_v2.py:41-62 | the raw pieces joined with commas give the value text back: the splitter loses only the separating commas |
| ValueSplitter.Values | supabase/seeds/eysh/transform_seeds_v2.py:58-65 | each piece closed by a separator is stripped and kept, empty or not; the final piece is kept only when it is not blank |
| ValueSplitter.SplitValues | supabase/seeds/eysh/transform_seeds_v2.py:41-65 | the script's character loop computes exactly the reference value list |
| ValueSplitter.NoSplitInside | supabase/seeds/eysh/transform_seeds_v2.py:48-58 | text without a separating comma stays in the value it starts, so commas in strings or parentheses do not split |
| ValueSplitter.SplitAtSeparator | supabase/seeds/eysh/transform_seeds_v2.py:58-60 | a comma read outside strings at depth 0 ends the value before it |
| ValueSplitter.ClosedJoinPieces | supabase/seeds/eysh/transform_seeds_v2.py:41-62 | values that are closed under the scanner, joined by commas, split back into the same list |
| ValueSplitter.ClosedJoinValues | supabase/seeds/eysh/transform_seeds_v2.py:41-65 | padded closed values read back as their stripped forms when the last is not blank |
| ValueSplitter.ClosedJoinDropsLast | supabase/seeds/eysh/transform_seeds_v2.py:64-65 | when the last closed value is blank, the script's value list loses it |
| ValueSplitter.KeepingLastAgrees | supabase/seeds/eysh/transform_seeds_v2.py:64-65 | the corrected list differs from the script's only by the blank final value the script drops |
| ValueSplitter.ClosedJoinKeepsAll | supabase/seeds/eysh/transform_seeds_v2.py:41-65 | with the corrected final-value rule every value is read back, blank ones included |
| ValueSplitter.QuotedLiteralClosed | supabase/seeds/eysh/transform_seeds_v2.py:48-51 | a quoted literal is one value whatever commas, parentheses or other quotes it holds |
| ValueSplitter.CallClosed | supabase/seeds/eysh/transform_seeds_v2.py:52-57 | a call such as `coalesce(a, b)` is one value |
| ValueSplitter.ConcatClosed | supabase/seeds/eysh/transform_seeds_v2.py:47-62 | closed pieces written one after the other stay one value |
| MockTestForm.SubjectTitle | src/types/admin/mock-tests.ts:127-133 | exactly the four subjects have a (non-empty) default title |
| MockTestForm.DefaultQuestionShape | src/types/admin/mock-tests.ts:99-114 | a default question is worth 10 points and has four empty, incorrect options numbered 0..3, so it does not validate yet |
| MockTestForm.DefaultTestShape | src/types/admin/mock-tests.ts:143-153 | the default test has 180 minutes, 60%, one math section titled "Математик" with problem 1 and question "a", one question in total, and fails first on its blank title |
| MockTestForm.OptionsFromDb | src/types/admin/mock-tests.ts:180-195 | a missing or empty option list becomes the four default options; otherwise the options are carried over in order |
| MockTestForm.FromDb | src/types/admin/mock-tests.ts:158-211 | the pass mark is always 60, published only when stored as true, missing sections or problems become empty lists |
| MockTestForm.FromDbToDb | src/types/admin/mock-tests.ts:158-211 | loading a stored test for editing gives back exactly its form data |
| MockTestForm.QuestionRoundTrip | src/types/admin/mock-tests.ts:172-198 | a stored question loads back as the same question |
| MockTestForm.ProblemRoundTrip | src/types/admin/mock-tests.ts:170-200 | a stored problem loads back as the same problem |
| MockTestForm.SectionRoundTrip | src/types/admin/mock-tests.ts:168-202 | a stored section loads back as the same section |
| MockTestForm.TotalIsCount | src/types/admin/mock-tests.ts:214-221 | the total is the number of questions over all sections and problems |
| MockTestForm.ProblemsTotalIsCount | src/types/admin/mock-tests.ts:216-219 | a section's contribution is the number of its problems' questions |
| MockTestForm.ValidTotal | src/types/admin/mock-tests.ts:214-311 | a test the validator accepts has at least one question per section |
| MockTestForm.Scan | src/types/admin/mock-tests.ts:235-306 | a check loop reports the failure of the first entry that fails, or nothing when all pass |
| MockTestForm.FirstFailureOk | src/types/admin/mock-tests.ts:224-311 | the validator passes exactly the well-formed tests: blank-free titles, a section, problems, questions with text, explanation, two options and exactly one correct one, and options with text or an image |
| MockTestForm.FailureIsFirst | src/types/admin/mock-tests.ts:235-306 | a reported failure lies in a section all of whose predecessors are fine |
| MockTestForm.SectionFailureNumbered | src/types/admin/mock-tests.ts:235-250 | failures inside section k are reported as section k+1 |
| MockTestForm.ProblemFailureNumbered | src/types/admin/mock-tests.ts:253-260 | failures inside problem k are reported as problem k+1 of their section |
| MockTestForm.QuestionFailureNumbered | src/types/admin/mock-tests.ts:263-306 | failures inside a question carry its section, problem and letter |
| MockTestForm.SectionCheckOk | src/types/admin/mock-tests.ts:235-250 | a section passes its checks exactly when it is well formed |
| MockTestForm.ProblemCheckOk | src/types/admin/mock-tests.ts:253-260 | a problem passes its checks exactly when it is well formed |
| MockTestForm.QuestionCheckOk | src/types/admin/mock-tests.ts:263-306 | a question passes its checks exactly when it is well formed |
| MockTestForm.Validate | src/types/admin/mock-tests.ts:224-312 | valid exactly for well-formed tests; a blank title or an empty section list is reported first and without a path; deeper failures carry a path |
| MockTestForm.FailureLevel | src/types/admin/mock-tests.ts:226-232 | a failure is test-level exactly when the title is blank or there are no sections |
| MockTestForm.PathStartsMessage | src/types/admin/mock-tests.ts:235-306 | every message below the test level starts with the location it reports |
| QuestionCard.UpdateOption | src/components/admin/mock-tests/form/QuestionCard.tsx:52-63 | only the named field of option i changes, so editing anything but the correct flag keeps the number of correct options |
| QuestionCard.ApplyUnique | src/components/admin/mock-tests/form/QuestionCard.tsx:52-63 | an edited option is determined by the edit and the untouched fields |
| QuestionCard.SetCorrect | src/components/admin/mock-tests/form/QuestionCard.tsx:65-71 | option i becomes correct, every other option incorrect, nothing else changes |
| QuestionCard.SetCorrectCount | src/components/admin/mock-tests/form/QuestionCard.tsx:65-88 | in range, exactly one option is correct and the radio group selects it; out of range, none is |
| QuestionCard.SetCorrectTwice | src/components/admin/mock-tests/form/QuestionCard.tsx:65-71 | choosing the same answer twice is choosing it once |
| QuestionCard.AddOption | src/components/admin/mock-tests/form/QuestionCard.tsx:73-76 | one empty, incorrect option numbered by the old length is appended; the others are unchanged |
| QuestionCard.AddOptionCount | src/components/admin/mock-tests/form/QuestionCard.tsx:73-76 | adding an option never changes which answers are correct |
| QuestionCard.DeleteOption | src/components/admin/mock-tests/form/QuestionCard.tsx:78-86 | exactly option i is removed, the others keep their order and are renumbered 0..n-2 |
| QuestionCard.DeleteAdded | src/components/admin/mock-tests/form/QuestionCard.tsx:73-86 | deleting the option just added restores a numbered list |
| QuestionCard.DeleteOptionCount | src/components/admin/mock-tests/form/QuestionCard.tsx:78-86 | the number of correct options drops by one exactly when the deleted option was correct |
| QuestionCard.DeleteKeepsTwo | src/components/admin/mock-tests/form/QuestionCard.tsx:227 | deleting only while more than two options exist keeps at least two |
| QuestionCard.CorrectIndex | src/components/admin/mock-tests/form/QuestionCard.tsx:88 | the first correct option, or -1 exactly when none is correct |
| ProblemCard.QuestionLetter | src/components/admin/mock-tests/form/ProblemCard.tsx:62-64 | the letter table and the character-code fallback agree: position n gets the letter 'a'+n |
| ProblemCard.LettersDistinct | src/components/admin/mock-tests/form/ProblemCard.tsx:62-64 | different positions get different letters |
| ProblemCard.UpdateQuestion | src/components/admin/mock-tests/form/ProblemCard.tsx:48-59 | only the named field of question i changes, so editing anything but index or letter keeps a lettered list lettered |
| ProblemCard.AddQuestion | src/components/admin/mock-tests/form/ProblemCard.tsx:61-67 | a default question with index n and letter 'a'+n is appended; a lettered list stays lettered |
| ProblemCard.Reletter | src/components/admin/mock-tests/form/ProblemCard.tsx:74-78 | re-indexing and re-lettering keeps every question's content |
| ProblemCard.DeleteQuestion | src/components/admin/mock-tests/form/ProblemCard.tsx:69-81 | exactly question i is removed; the k-th remaining question gets index k and letter 'a'+k |
| ProblemCard.DeleteAdded | src/components/admin/mock-tests/form/ProblemCard.tsx:61-81 | deleting the question just added gives the lettered list back |
| ProblemCard.LetteredDistinct | src/components/admin/mock-tests/form/ProblemCard.tsx:69-81 | in a lettered list no two questions share a letter |
| ProblemCard.DeleteKeepsOne | src/components/admin/mock-tests/form/ProblemCard.tsx:198 | deleting only while more than one question exists keeps at least one |
| SectionCard.UpdateProblem | src/components/admin/mock-tests/form/SectionCard.tsx:51-62 | only the named field of problem i changes, so editing anything but index or number keeps a numbered list numbered |
| SectionCard.AddProblem | src/components/admin/mock-tests/form/SectionCard.tsx:64-71 | a default problem with index n and number n+1, holding question "a", is appended |
| SectionCard.Renumber | src/components/admin/mock-tests/form/SectionCard.tsx:78-82 | renumbering keeps every problem's content |
| SectionCard.DeleteProblem | src/components/admin/mock-tests/form/SectionCard.tsx:73-84 | exactly problem i is removed; the k-th remaining problem gets index k and number k+1 |
| SectionCard.DeleteAdded | src/components/admin/mock-tests/form/SectionCard.tsx:64-84 | deleting the problem just added gives the numbered list back |
| SectionCard.ChangeSubject | src/components/admin/mock-tests/form/SectionCard.tsx:86-89 | the subject is set; the title is non-empty exactly for the four known subjects; the problems are kept |
| SectionCard.ChangeSubjectDefault | src/components/admin/mock-tests/form/SectionCard.tsx:44-89 | the new title is the one a default section of that subject has |
| Formatters.ClockSplit | src/lib/utils/formatters.ts:134-139 | hours·3600 + minutes·60 + seconds is the duration, with minutes and seconds below 60 |
| Formatters.ClockUnique | src/lib/utils/formatters.ts:134-139 | that split is the only one with minutes and seconds below 60 |
| Formatters.FormatDurationParts | src/lib/utils/formatters.ts:134-152 | the long format is the shown parts, each "<amount> <unit>", separated by spaces |
| Formatters.ShownValue | src/lib/utils/formatters.ts:134-152 | the shown parts add up to the duration below an hour and to within a minute above; seconds are never shown once hours are; no zero amount is shown for a non-zero duration |
| Formatters.ShortUnderHour | src/lib/utils/formatters.ts:159-171 | below one hour the short format is exactly "MM:SS" |
| Formatters.ShortSplit | src/lib/utils/formatters.ts:159-171 | splitting the short format at its colons gives its padded fields |
| Formatters.ShortRead | src/lib/utils/formatters.ts:159-171 | the fields read back as the duration |
| Formatters.FormatDurationShortParse | src/lib/utils/formatters.ts:159-171 | the short format reads back as the same number of seconds |
| Formatters.ParseCourseLevel | src/lib/utils/formatters.ts:193-201 | only the three Mongolian level names parse, each to a database level |
| Formatters.CourseLevelRoundTrip | src/lib/utils/formatters.ts:176-201 | formatting then parsing gives Beginner, Intermediate and Advanced back; any other string parses to nothing |
| Formatters.PluralizeReads | src/lib/utils/formatters.ts:257-266 | the text is the count, a space and the word, with the suffix exactly when the count is not 1 |
| Formatters.PluralizeNoSuffix | src/lib/utils/formatters.ts:257-266 | with an empty suffix the word never changes |
| Formatters.CountFormats | src/lib/utils/formatters.ts:271-287 | the course, lesson and student counts are always "<n> <word>" |
| Formatters.SliceTo | src/lib/utils/formatters.ts:299 | `slice(0, n)` is a prefix of the text, n long or the whole text; a negative n counts from the back |
| Formatters.Truncate | src/lib/utils/formatters.ts:295-300 | text within the limit is returned as it is; longer text keeps its first maxLength code units and gains "..." |
| Formatters.TruncateTwice | src/lib/utils/formatters.ts:295-300 | truncating twice with the same limit is truncating once |
| Formatters.TruncateBmp | src/lib/utils/formatters.ts:295-300 | on text without astral characters the limit counts characters |
| Formatters.TruncateAstral | src/lib/utils/formatters.ts:295-300 | an astral character counts twice, and the cut can fall between its halves |
| Formatters.StreakDistinct | src/lib/utils/formatters.ts:347-355 | the one-day text is the general form for 1, and different day counts never share a message |
| Utils.UpperIdempotent | src/lib/utils.ts:13 | upper-casing a character twice changes nothing more |
| Utils.Initials | src/lib/utils.ts:10-16 | one initial per non-empty word, and never a space |
| Utils.FirstsOfWords | src/lib/utils.ts:13-14 | for non-empty words the first characters come one per word, in order |
| Utils.InitialsOfWords | src/lib/utils.ts:10-16 | a name of words between single spaces has one initial per word: its upper-cased first character |
| Utils.ReadFormatDuration | src/lib/utils.ts:18-25 | the "<h>h <m>min" text reads back as the same number of minutes |
| Utils.FormatDurationInjective | src/lib/utils.ts:18-25 | different durations never share a text |
| Utils.FormatTimeParse | src/lib/utils.ts:27-31 | the "M:SS" text reads back as the same number of seconds, minutes unwrapped |
| Utils.LeagueBands | src/lib/utils.ts:43-52 | Bronze below level 5, Silver 5-9, Gold 10-14, Platinum 15-19, Diamond from 20 |
| Utils.LeagueMonotone | src/lib/utils.ts:43-52 | a higher level never gets a lower league |
| Utils.ToUserStats | src/lib/utils.ts:37-62 | missing XP and streak become 0; the level is the 500-XP band the XP falls in, at least 1; the league follows the level |
| Utils.StatsLeagueMonotone | src/lib/utils.ts:37-62 | more XP never lowers the league |
| Utils.FirstOpen | src/lib/utils.ts:76-80 | the first lesson not completed, or nothing when all are |
| Utils.NextUncompleted | src/lib/utils.ts:68-97 | the first pending step if any; otherwise the first lesson of the first unit, or nothing when there is none |
| Utils.ScanIsFirstPending | src/lib/utils.ts:74-91 | the search returns the first pending step in unit order, a unit's lessons before its quiz |
| Utils.FirstPendingLessons | src/lib/utils.ts:76-80 | within a unit the pending lesson is the first one not completed |
| Utils.FirstPendingQuiz | src/lib/utils.ts:83-90 | a marked unit quiz is pending exactly when it is not yet completed |
| Levels.CalculateLevel | src/lib/mock-data.ts:260-263 | the level is the 500-XP band the XP falls in, at least 1 for non-negative XP |
| Levels.LevelUnique | src/lib/mock-data.ts:260-263 | the band condition fixes the level |
| Levels.LevelMonotone | src/lib/mock-data.ts:260-263 | more XP never means a lower level |
| Levels.XpForNextLevel | src/lib/mock-data.ts:266-269 | the next level starts at the first multiple of 500 above the current XP |
| Levels.LevelProgress | src/lib/mock-data.ts:272-279 | the share of the current level's 500 XP, rounded, within 0..100, and 0 at the start of a level |
| Levels.ProgressFullEarly | src/lib/mock-data.ts:272-279 | the last two XP of a level already show 100 |
| JsMath.Round | src/lib/lesson-utils.ts:51 | `Math.round` of a ratio is the nearest integer, halves rounded up |
| JsMath.RoundUnique | src/lib/lesson-utils.ts:51 | only one integer is within half of a ratio in that sense |
| JsMath.Percent | src/lib/lesson-utils.ts:50-51 | the rounded percentage, 0 without a total, within 0..100 when the part is within the total |
| LessonUtils.DurationLabelReads | src/lib/lesson-utils.ts:31-36 | a video's label reads back as its duration; other lessons show "Quiz" or "Assignment" |
| LessonUtils.ToItem | src/lib/lesson-utils.ts:28-41 | completed exactly for completed ids, current exactly for the current id, never locked |
| LessonUtils.TransformForSidebar | src/lib/lesson-utils.ts:13-42 | one section per distinct section title, in order of first appearance, listing its lessons in input order |
| LessonUtils.SidebarPlacement | src/lib/lesson-utils.ts:13-26 | each lesson appears in its own section, and no two sections share a title |
| LessonUtils.CalculateCourseProgress | src/lib/lesson-utils.ts:46-59 | the counts are echoed, the percentage is the rounded share (0 without lessons) and no XP is reported |
| LessonUtils.ProgressEnds | src/lib/lesson-utils.ts:46-59 | a finished course shows 100 and an untouched one 0 |
| LessonUtils.GetNavigationUrls | src/lib/lesson-utils.ts:62-81 | previous exists exactly after the first position, next exactly before the last, each linking the neighbouring lesson |
| LessonUtils.LessonUrlInjective | src/lib/lesson-utils.ts:74-79 | different lessons of a course get different links |
| LessonUtils.NavigationAt | src/lib/lesson-utils.ts:67-80 | with distinct ids the links are the lessons right before and after the current one |
| LessonUtils.NavigationUnknown | src/lib/lesson-utils.ts:67-71 | an unknown lesson has no previous link and its next link is the first lesson |
| QuizState.Initial | src/components/player/quiz/useQuizState.ts:37-46 | the player starts at question 0 with score 0, no selection, no answers, loading |
| QuizState.Loaded | src/components/player/quiz/useQuizState.ts:56-81 | a previous attempt opens the result screen with its score; otherwise question 0 and score 0; loading stops and XP is zero |
| QuizState.FailedIsNotFound | src/components/player/quiz/useQuizState.ts:64-80 | a failed load ends like a missing attempt |
| QuizState.Submit | src/components/player/quiz/useQuizState.ts:107-124 | without quiz data or a selection nothing happens; otherwise the explanation shows and the answer is recorded at the current question |
| QuizState.SubmitScore | src/components/player/quiz/useQuizState.ts:111-119 | the score grows by exactly one exactly for the correct answer, and otherwise not at all |
| QuizState.MovesStayOnQuestions | src/components/player/quiz/useQuizState.ts:126-152 | next and previous keep a player on a question on a question |
| QuizState.MovesKeepResults | src/components/player/quiz/useQuizState.ts:126-152 | moving never touches the score, the answers or the XP |
| QuizState.NextThenPrevious | src/components/player/quiz/useQuizState.ts:126-152 | forward then back returns to the same question with the selection cleared |
| QuizState.Retry | src/components/player/quiz/useQuizState.ts:154-165 | retry restores the initial state with nothing loading |
| UnitList.Runs | src/components/admin/units/UnitList.tsx:58-71 | no groups exactly for no units |
| UnitList.RunsPartition | src/components/admin/units/UnitList.tsx:58-71 | the groups put back together are the input, each holds units of one content, and neighbouring groups differ |
| UnitList.ArrayMoveMeaning | src/components/admin/units/UnitList.tsx:93 | the moved unit lands at its target, the others keep their order, and the list is only permuted |
| UnitList.InsertWithout | src/components/admin/units/UnitList.tsx:93 | removing an inserted element gives the list back |
| UnitList.InsertMultiset | src/components/admin/units/UnitList.tsx:93 | inserting adds exactly that element |
| UnitList.DragEnd | src/components/admin/units/UnitList.tsx:85-105 | a drop onto itself, nowhere, or with an unknown id changes nothing |
| UnitList.DragMoves | src/components/admin/units/UnitList.tsx:87-104 | a saved drop puts the unit at the target and keeps the others in order; a failed save restores the initial list |
| UnitList.Delete | src/components/admin/units/UnitList.tsx:107-118 | after a delete no unit with that id remains, and nothing new appears |
| UnitList.DeleteOne | src/components/admin/units/UnitList.tsx:107-118 | deleting the one unit with an id removes exactly it |
| UnitsAccordion.ContentKey | src/components/admin/units/UnitsAccordionTable.tsx:35 | units without a content name all share the ungrouped key |
| UnitsAccordion.GroupUnitsPlacement | src/components/admin/units/UnitsAccordionTable.tsx:30-44 | each key once, in order of first appearance; each group non-empty and exactly its key's units in course order |
| UnitsAccordion.GroupedViewIff | src/components/admin/units/UnitsAccordionTable.tsx:158 | the grouped view is chosen exactly when some unit has a content name |
| UnitsAccordion.PositionNumberNamesUnit | src/components/admin/units/UnitsAccordionTable.tsx:207-209 | with distinct ids a unit's position number is its place in the course |
| UnitsAccordion.RowNumberContiguous | src/components/admin/units/UnitsAccordionTable.tsx:83 | when a group's units are consecutive in the course, the written number is the unit's place |
| UnitsAccordion.InterleavedNumbering | src/components/admin/units/UnitsAccordionTable.tsx:83 | as written, with contents A, B, A two rows show the number 2, and one of them is not unit 2 |
| UnitsAccordion.GroupedPositionNumbers | src/components/admin/units/UnitsAccordionTable.tsx:207-209 | corrected: numbering rows by each unit's own place shows every unit's place, so no two rows share a number |
| UnitsAccordion.Rows | src/components/admin/units/UnitsAccordionTable.tsx:75-93 | row i of a group shows start+i+1, the Mongolian title or the title, and the lesson count |
| UnitsAccordion.Body | src/components/admin/units/UnitsAccordionTable.tsx:195-255 | nothing for a course without units; the flat list only when no unit has a content name |
| UnitsAccordion.FlatNumbers | src/components/admin/units/UnitsAccordionTable.tsx:83 | in the flat view each row shows its unit's place |
| UnitsAccordion.Pagination | src/components/admin/units/UnitsAccordionTable.tsx:263-301 | hidden exactly for at most one page; otherwise one button per page, numbered from 1 |
| UnitsAccordion.PaginationStaysInRange | src/components/admin/units/UnitsAccordionTable.tsx:263-301 | enabled arrows lead to pages in range, and exactly the current page's button is active |
| UnitActions.Slug | src/lib/actions/admin/units.ts:119-125 | a slug holds only `[a-z0-9-]`, never "--", and never starts or ends with a dash |
| UnitActions.CollapseShape | src/lib/actions/admin/units.ts:123 | replacing separator runs leaves no double dash |
| UnitActions.SlugOfSlug | src/lib/actions/admin/units.ts:119-125 | a slug is its own slug |
| UnitActions.SlugIdempotent | src/lib/actions/admin/units.ts:119-125 | generating a slug twice is generating it once |
| UnitActions.SlugKeepsAlnum | src/lib/actions/admin/units.ts:119-125 | the slug's letters and digits are those of the lower-cased title, in order, U+0130 and U+212A lowered as JavaScript does |
| UnitActions.LowerNoUpper | src/lib/actions/admin/units.ts:121 | the lower-cased title holds no upper-case ASCII letter, so only `[\w\s-]` decides what the slug keeps |
| UnitActions.LowerAlnum | src/lib/actions/admin/units.ts:121 | `toLowerCase` yields a letter or digit exactly when the title holds A-Z, a-z, 0-9, U+0130 or U+212A |
| UnitActions.SlugEmptyIff | src/lib/actions/admin/units.ts:119-125 | the slug is empty exactly when no character of the title lowers to a letter or digit |
| UnitActions.SlugWithoutAlnum | src/lib/actions/admin/units.ts:119-125 | a title none of whose characters lowers to an ASCII letter or digit, an all-Cyrillic one say, gives "" |
| UnitActions.SlugDottedCapitalI | src/lib/actions/admin/units.ts:121-122 | U+0130 lowers to "i" and a combining dot, the dot is dropped: "İstanbul" gives "istanbul" |
| UnitActions.SlugKelvin | src/lib/actions/admin/units.ts:121-122 | the Kelvin sign lowers to "k" and survives as that letter |
| UnitActions.SlugHasAlnum | src/lib/actions/admin/units.ts:119-125 | a non-empty slug holds a letter or digit |
| UnitActions.FirstSeenKeeps | src/lib/actions/admin/units.ts:262-271 | the filter keeps each non-empty content once and drops those seen before |
| UnitActions.Suggestions | src/lib/actions/admin/units.ts:262-271 | the suggestions are exactly the non-empty contents, without duplicates; none when the query fails |
| UnitActions.SuggestionsInOrder | src/lib/actions/admin/units.ts:262-271 | the suggestions come in order of first appearance |
| UnitActions.Summarize | src/lib/actions/admin/units.ts:315-346 | the units sorted by `order_index`, their number, and the course echoed |
| UnitActions.SummaryStable | src/lib/actions/admin/units.ts:326-328 | units sharing an `order_index` keep their order |
| UnitActions.SummaryLessonsCount | src/lib/actions/admin/units.ts:315-346 | the lesson total is the sum over the listed units, missing lists counting 0 |
| UnitActions.SummariesSum | src/lib/actions/admin/units.ts:315-346 | summarising keeps every unit's lesson count |
| UnitActions.GetUnit | src/lib/actions/admin/units.ts:48-76 | nothing when the query fails; otherwise the lessons sorted by place in the unit (missing counts as 0), the same lessons, and their number |
| UnitActions.GetUnitStable | src/lib/actions/admin/units.ts:66-68 | lessons sharing a place keep their order |
| UnitActions.DeleteUnit | src/lib/actions/admin/units.ts:192-228 | refused with the lesson count while lessons exist; otherwise the outcome of the delete |
| Sorting.SortBy | src/lib/actions/admin/units.ts:326-328 | the result is sorted by the key and a permutation of the input |
| Sorting.SortByStable | src/lib/actions/admin/units.ts:326-328 | elements sharing a key keep their input order |
| Sorting.SortBySum | src/lib/actions/admin/units.ts:326-328 | sorting keeps every total |
| Sorting.InsertSorted | src/lib/actions/admin/units.ts:66-68 | inserting into a sorted list keeps it sorted and adds exactly that element |
| CoursesPagination.Pagination | src/components/courses/CoursesPagination.tsx:15-36 | nothing for at most one page; previous and next request the neighbouring pages and are disabled on the first and last |
| CoursesPagination.Slots | src/components/courses/CoursesPagination.tsx:38-73 | the slots come in page order, each the one its page calls for |
| CoursesPagination.SlotsComplete | src/components/courses/CoursesPagination.tsx:38-73 | every page that calls for a slot has it rendered, and a page that calls for none has no slot |
| CoursesPagination.NeighboursRendered | src/components/courses/CoursesPagination.tsx:38-73 | the current page and its neighbours in range are rendered as links, the current one marked |
| CoursesPagination.PageClasses | src/components/courses/CoursesPagination.tsx:39-56 | the ends and the current page's neighbours are buttons; ellipses only two away and only when there is a gap; every other page is omitted |
| CoursesPagination.HiddenBehindEllipsis | src/components/courses/CoursesPagination.tsx:39-56 | every omitted page sits behind an ellipsis on its side of the current page |
| CoursesPagination.AtMostTwoEllipses | src/components/courses/CoursesPagination.tsx:44-56 | at most two ellipses are shown |
| CoursesPagination.EndsAreLinks | src/components/courses/CoursesPagination.tsx:39-42 | the bar starts with page 1 and ends with the last page, as buttons |
| CoursesPagination.ArrowsInRange | src/components/courses/CoursesPagination.tsx:75-92 | enabled arrows lead to pages in range |
| MathText.NextMatchIs | src/components/shared/MathText.tsx:35 | the match found is a delimited match |
| MathText.NextMatchEarliest | src/components/shared/MathText.tsx:35 | the match found is the leftmost one |
| MathText.MatchFound | src/components/shared/MathText.tsx:59 | any match at or after the scan position is found |
| MathText.CloseFirst | src/components/shared/MathText.tsx:31 | the closing delimiter is the first one, with no line end before it |
| MathText.MatchContent | src/components/shared/MathText.tsx:31 | math content stays on one line and holds no delimiter |
| MathText.RenderRoundTrip | src/components/shared/MathText.tsx:24-80 | nothing for empty text; otherwise the parts, with their delimiters restored, spell the input exactly; the plain fallback is never reached |
| MathText.SegmentsRestore | src/components/shared/MathText.tsx:31-75 | the segments spell the input |
| MathText.HasMathIff | src/components/shared/MathText.tsx:108-110 | `hasMath` holds exactly when some math part is rendered |
| MathText.HasMathTwoDollars | src/components/shared/MathText.tsx:108-110 | `hasMath` holds exactly when two `$` occur with no line end between them |
| MathText.InlineOnlyAfterBlocks | src/components/shared/MathText.tsx:35-75 | no inline part precedes a block part: inline math is looked for only after the last block |
| MathText.BlockIsInline | src/components/shared/MathText.tsx:59 | a `$$` is also an empty `$…$` match |
| MathText.BlocksNoInline | src/components/shared/MathText.tsx:31-45 | the block pass yields no inline math |
| MathText.InlinesNoBlock | src/components/shared/MathText.tsx:54-75 | the inline pass yields no block math |
| MockTestActions.AwardXP | src/lib/actions/mock-test-actions.ts:394-460 | 0 without a user, without the attempt or on an error; otherwise 20 per correct answer plus at most 1500 of bonuses |
| MockTestActions.MasteryTiers | src/lib/actions/mock-test-actions.ts:424-434 | 1000 at 100%, 600 on [95,100), 400 on [90,95), 200 on [80,90), 0 otherwise |
| MockTestActions.RatioAtLeast | src/lib/actions/mock-test-actions.ts:424-434 | the percentage comparisons agree with the whole-number tiers |
| MockTestActions.PercentageIsHundred | src/lib/actions/mock-test-actions.ts:426 | the percentage is 100 exactly for a perfect score |
| MockTestActions.MasteryMonotone | src/lib/actions/mock-test-actions.ts:424-434 | more correct answers never earn less bonus |
| MockTestActions.AwardIncreasing | src/lib/actions/mock-test-actions.ts:423-439 | more correct answers always earn strictly more XP |
| MockTestActions.FirstAttemptWorth | src/lib/actions/mock-test-actions.ts:416-439 | a first completed attempt is worth exactly 500 more |
| MockTestActions.PerfectScore | src/lib/actions/mock-test-actions.ts:423-439 | a perfect score earns 20 per question, the 1000 bonus and the first-attempt 500 |
| MockTestActions.ValidateAnswers | src/lib/actions/mock-test-actions.ts:553-595 | succeeds exactly when the query answers, with the source's messages otherwise |
| MockTestActions.ValidateMeaning | src/lib/actions/mock-test-actions.ts:574-586 | the missing ids are the expected ones without a saved answer; valid exactly when there are none |
| MockTestActions.MissingInOrder | src/lib/actions/mock-test-actions.ts:574-586 | missing ids keep the expected order |
| MockTestActions.GetSavedAnswers | src/lib/actions/mock-test-actions.ts:510-547 | succeeds exactly when the query answers, with the source's messages otherwise |
| MockTestActions.AnswerMapKeys | src/lib/actions/mock-test-actions.ts:529-534 | a question has an entry exactly when some row selects an option for it |
| MockTestActions.AnswerMapLastWins | src/lib/actions/mock-test-actions.ts:529-534 | the entry is the last selecting row's option |
| MockTestActions.TimerUpdateChangesNothing | src/lib/actions/mock-test-actions.ts:235-245 | the timer update always succeeds and changes nothing, whatever its arguments |
| UnitContentMilestone.RewardTiers | src/lib/actions/unit-content-milestone.ts:13 | 30, 50 and 70 XP for the first three groups, 100 from the fourth on |
| UnitContentMilestone.RewardMonotone | src/lib/actions/unit-content-milestone.ts:94-98 | a later group is never worth less, and never more than 100 |
| UnitContentMilestone.SourceIdInjective | src/lib/actions/unit-content-milestone.ts:101 | with equal-length enrollment ids every group of every enrollment has its own ledger key |
| UnitContentMilestone.Claim | src/lib/actions/unit-content-milestone.ts:35-155 | a refusal awards 0 and changes nothing; a success records one transaction of the tier's reward and adds the group to the claimed list |
| UnitContentMilestone.ClaimSucceedsIff | src/lib/actions/unit-content-milestone.ts:35-136 | a claim succeeds exactly when signed in, enrolled, not claimed, complete, not yet awarded, and the insert goes through |
| UnitContentMilestone.AlreadyClaimedRefused | src/lib/actions/unit-content-milestone.ts:61-64 | a claimed group is refused whatever else holds |
| UnitContentMilestone.IncompleteRefused | src/lib/actions/unit-content-milestone.ts:67-91 | a group not reported complete is refused |
| UnitContentMilestone.ClaimKeepsRowsSingle | src/lib/actions/unit-content-milestone.ts:104-136 | claims never give a ledger key a second row |
| UnitContentMilestone.ClaimAtMostOnce | src/lib/actions/unit-content-milestone.ts:104-149 | a second claim of the same group never succeeds and changes nothing |
| LessonContentProgress.SaveContentProgress | src/lib/actions/lesson-content-progress.ts:43-200 | a failed save stores, awards and checks nothing; a successful one stores the position for the content |
| LessonContentProgress.SaveSucceedsIff | src/lib/actions/lesson-content-progress.ts:53-130 | a save succeeds exactly when signed in and enrolled, the content exists and the upsert succeeds |
| LessonContentProgress.XpRule | src/lib/actions/lesson-content-progress.ts:95-104 | a rewatch exactly when the stored row is completed; 10 XP exactly for a first completion of theory or example, else 0 |
| LessonContentProgress.StoredRow | src/lib/actions/lesson-content-progress.ts:107-130 | the completion flag is overwritten; a rewatch keeps the old XP; the completion time is now, the old one, or none |
| LessonContentProgress.AwardIff | src/lib/actions/lesson-content-progress.ts:133-152 | a transaction is inserted exactly when 10 XP are reported, typed by the content |
| LessonContentProgress.LessonCheckOnCompletion | src/lib/actions/lesson-content-progress.ts:156-196 | the lesson check runs, and is reported, only for a successful completing save |
| LessonContentProgress.SecondCompletionPaysNothing | src/lib/actions/lesson-content-progress.ts:95-130 | completing again is a rewatch: no XP, no transaction, and the stored XP is kept |
| LessonContentProgress.IncompleteSaveReopens | src/lib/actions/lesson-content-progress.ts:95-130 | saving an item as incomplete reopens it, and completing it again earns 10 XP once more |
| LessonContentProgress.MergeAll | src/lib/actions/lesson-content-progress.ts:250-262 | one view entry per content item, in order |
| LessonContentProgress.ContentProgressView | src/lib/actions/lesson-content-progress.ts:209-267 | an item without a row is not completed, at position 0 with 0 XP; otherwise the first row supplies the values |
| LessonContentProgress.ContentProgressEmptyOnFailure | src/lib/actions/lesson-content-progress.ts:216-240 | the view is empty when not signed in, not enrolled, or the items cannot be read |
| LessonContentProgress.AllRequiredDoneIff | src/lib/actions/lesson-content-progress.ts:284-296 | complete exactly when every theory and example item is completed; other types do not matter |
| LessonContentProgress.MergedDoneIff | src/lib/actions/lesson-content-progress.ts:250-296 | in terms of the reads: every theory or example item has a completed first row |
| LessonContentProgress.FailedReadCountsAsComplete | src/lib/actions/lesson-content-progress.ts:277-297 | as written, a lesson incomplete for its learner counts as complete once the sign-in is missing |
| LessonContentProgress.CheckedCompleteIff | src/lib/actions/lesson-content-progress.ts:277-297 | corrected: complete exactly when the view can be read and every theory or example item has a completed row |
| LessonStepProgress.ProgressMapLastWins | src/lib/actions/lesson-step-progress.ts:77-79 | an item counts as done exactly when its last progress row is completed |
| LessonStepProgress.StepDoneIff | src/lib/actions/lesson-step-progress.ts:82-93 | a content step is done exactly when every item of its type has a completed last row |
| LessonStepProgress.TopAttempt | src/lib/actions/lesson-step-progress.ts:59-66 | the best attempt is one of the attempts, scoring at least as high as each |
| LessonStepProgress.BestPassesIff | src/lib/actions/lesson-step-progress.ts:96-101 | with a common question count the test step is passed exactly when some attempt reached 80% |
| LessonStepProgress.StepCompletionStatus | src/lib/actions/lesson-step-progress.ts:25-111 | all three steps are false without sign-in, enrollment, or on an error |
| LessonStepProgress.StepStatusMeaning | src/lib/actions/lesson-step-progress.ts:73-101 | for an enrolled learner: theory and example as the rows say, the test as the best attempt's 80% says |
| LessonStepProgress.UnitQuizIff | src/lib/actions/lesson-step-progress.ts:120-159 | the unit quiz counts exactly when signed in, enrolled, and the best attempt reached 80%: the test step's rule |
| LessonPlayer.SetCurrentLesson | src/hooks/lesson-player/index.tsx:44-64 | the lesson, step, steps and quiz flag are set; lesson info only when given; the step sets are kept |
| LessonPlayer.CurrentExactlyOnLesson | src/hooks/lesson-player/index.tsx:52-60 | the current mark sits exactly on the items of that lesson; nothing else changes |
| LessonPlayer.UpdateProgressFields | src/hooks/lesson-player/index.tsx:66-71 | supplied progress fields are overwritten, missing ones kept, nothing else changes |
| LessonPlayer.MarkLessonItems | src/hooks/lesson-player/index.tsx:73-80 | the lesson's items become completed, every other item is unchanged; without units nothing changes |
| LessonPlayer.MarkLessonProgress | src/hooks/lesson-player/index.tsx:82-89 | the progress is recounted: completed items, all items, the rounded percentage; streak and XP kept |
| LessonPlayer.MarkLessonIdempotent | src/hooks/lesson-player/index.tsx:73-92 | marking a lesson twice is marking it once |
| LessonPlayer.SumsCountItems | src/hooks/lesson-player/index.tsx:82-89 | the per-unit sums count all items and all completed items |
| LessonPlayer.MarkStepOnlyAdds | src/hooks/lesson-player/index.tsx:126-135 | marking a step only adds it to that lesson's set |
| LessonPlayer.FetchOnlyAdds | src/hooks/lesson-player/index.tsx:94-124 | a fetch is skipped while pending or once known; otherwise it records exactly the reported steps |
| LessonPlayer.RefreshOnlyAdds | src/hooks/lesson-player/index.tsx:137-167 | a refresh only adds the reported steps to what is known |
| LessonPlayer.MarkedStepSurvivesRefresh | src/hooks/lesson-player/index.tsx:126-167 | a step marked complete is never taken back by a refresh |

## Left out

- The seed driver `transform_file`/`main` (transform_seeds_v2.py:100-147) reads, writes and restores files. That is I/O, so it is not modelled.
- `transform_seeds.py`, the superseded first version of the rewriter, is not part of this model.
- SeedRewriter.Zip: columns and values whose counts differ are silently paired by position. This is what the script does; no count check is added.
- ValueSplitter.SplitValues: square brackets are not tracked, so `ARRAY[1,2]` splits at its comma. The script's scanner knows only quotes and parentheses.
- SeedRewriter.TransformIdempotent: stated for files whose kept values are canonical, with a non-blank last value. The blank-last-value case is not idempotent; see Findings.
- Formatters.FormatDuration: takes whole non-negative seconds. The source also accepts negative and fractional numbers, e.g. 90.5 gives "1 минут 30.5 секунд".
- Formatters.FormatDurationShort: takes whole non-negative seconds, for the same reason.
- Utils.FormatDuration: takes whole non-negative minutes. Negative or fractional minutes are not modelled.
- Utils.FormatTime: takes whole non-negative seconds. Negative or fractional seconds are not modelled.
- Formatters.ParseCourseLevel: the lookup table is a plain map. The source's object lookup also answers inherited keys such as "constructor", which the model parses to nothing.
- Formatters.Truncate: works on UTF-16 code units (`Text.Utf16`), as JavaScript does. Text that contains lone surrogates cannot be written as Dafny characters.
- ProblemCard.QuestionLetter: defined for counts below 0xD800−97 only. Beyond that, `String.fromCharCode` yields surrogate halves or wrapped codes, which are not Dafny characters. The same bound applies to ProblemCard.AddQuestion, ProblemCard.Reletter and ProblemCard.DeleteQuestion.
- UnitActions.Lower: lower-cases A-Z, U+0130 and U+212A as JavaScript does and keeps every other character as it is. The real lower case of any other character is neither ASCII nor whitespace unless the character already is, so `[^\w\s-]` removes both alike. The lowered text can therefore differ from JavaScript's, but the slug cannot.
- Utils.UpperChar: upper-casing covers ASCII, basic Cyrillic and the Mongolian letters ө and ү, not the full Unicode case mapping. getInitials of an astral character is not modelled.
- JsMath.Round: rounds the exact ratio. Floating point can differ at exact halves: `Math.round((23/40)*100)` computes 57.49999999999999 and gives 57, where the exact rule gives 58.
- LessonStepProgress.Passed: the source's float test `score >= total_questions * 0.8` is written as 5·score ≥ 4·total. With the double nearest 0.8, `total * 0.8` rounds to exactly 4·total/5 when that is whole, and to a non-integer close to it otherwise. So the two tests agree for every whole-number total below 2^50.
- MockTestActions.AwardXP: scores and question counts are whole non-negative numbers.
- LessonUtils.TransformForSidebar: sections come in order of first appearance, as `Object.entries` gives for string keys. Integer-like section titles, which JavaScript orders first, are not modelled.
- LessonUtils.TransformForSidebar: grouping uses a plain map. The source groups into an object literal, where a section titled "constructor", "__proto__" or another inherited key finds a truthy inherited value, so `acc[sectionTitle].push` then throws. The model groups such a section like any other.
- UnitsAccordion.GroupUnitsPlacement: the same plain-map grouping. The source's `groups[key].push` throws for a content name that is an inherited object key, such as "constructor".
- LessonPlayer.SetCurrentLesson: the outer `sidebarData?.units` guard reads the value captured by the callback, which can lag behind the state. The model applies the functional update whenever the current sidebar has units.
- QuizState: the setters `setSelectedAnswer`, `setShowExplanation`, `setXpAwarded` and `setIsSubmitting` (useQuizState.ts:87-105) are plain field updates and are not modelled. React's batching and stale closures are not modelled.
- UnitList.DragEnd: the asynchronous save is a boolean outcome, and the revert on failure restores the initial list. The reload and toasts are not modelled.
- UnitsAccordion.GroupedPositionNumbers: the numbering lemmas assume distinct unit ids, as the database guarantees.
- LessonContentProgress.SaveContentProgress: exceptions after the upsert, the ignored result of the transaction insert, the revalidation and the logs are not modelled.
- LessonStepProgress.TopAttempt: the database's order among attempts with equal scores is taken to be input order.
- LessonStepProgress.StepCompletionStatus: a read that returns null counts as an empty list, as the code has it. Steps are compared as strings.
- LessonPlayer.UpdateProgressFields: a field explicitly set to `undefined` in the patch is not distinguished from a missing one.
- LessonPlayer.FetchOnlyAdds: the fetch is one atomic step guarded by the pending set. Interleavings of concurrent fetches are not modelled.
- The date, `Intl`, file-size and percentage formatters of formatters.ts use dates, locales and floats, so they are not modelled.
- `fetchQuizData` (lesson-utils.ts:83 on) is a database fetch and is not modelled.
- The rest of mock-data.ts is fixture data and is not modelled.
- Database access, authentication, RPCs, revalidation, `updated_at` stamps and log output become parameters of the modelled functions or are dropped.

## Findings

| source | as written | input that shows it | evidently intended | confidence | as-written member | corrected member |
|---|---|---|---|---|---|---|
| supabase/seeds/eysh/transform_seeds_v2.py:64-65 | a blank final value is not appended, so a statement whose last kept value is empty is rewritten again one pair shorter on every pass | the statement the script writes for columns `a`, `b`, `c` and values `1`, empty, empty (one per line, indented): the next pass keeps `a` and `b`, the pass after keeps `a` alone | keep the final value as an empty string so columns and values stay aligned and a second run changes nothing | not executed | SeedRewriter.TrailingEmptyNotIdempotent | SeedRewriter.ReplaceKeepingLastRender |
| src/components/admin/units/UnitsAccordionTable.tsx:83 | a grouped row shows startIndex + index + 1, which assumes the group's units are consecutive in the course | units with contents A, B, A: the second A row and the B row both show 2 | each row shows its own unit's place in the course | not executed | UnitsAccordion.InterleavedNumbering | UnitsAccordion.GroupedPositionNumbers |
| src/lib/actions/lesson-content-progress.ts:277-297 | `getContentProgress` turns every failure into an empty list, which the completeness test accepts, so the `catch → false` answer is never given | an enrolled lesson with an unfinished theory item, read without a signed-in user | a view that cannot be read counts as incomplete | not executed | LessonContentProgress.FailedReadCountsAsComplete | LessonContentProgress.CheckedCompleteIff |
