# speedtype — a verified model of the typing-test logic

speedtype is a typing-practice web application: an Angular client in which a
user picks a book, types a window of its words against the clock and sees
speed and accuracy, and an ASP.NET server that stores books and test results.
This project models, in Dafny, the parts of both that carry the rules:

- **The typing-test session** (`TypingTest`, class `TypingTestComponent`).
  It covers the window of words cut out of a book, the preview and its
  scrolling, the clamped configuration, and key presses turned into a typed
  buffer with an error counter and a keystroke counter. It also covers live
  and final statistics, the two ways a test ends (the buffer reaches the
  length of the text, or a confirmed manual stop) and the resume position
  stored per user and book. The class keeps the component's fields and its
  methods update them in place. The invariant `Valid` holds between any two
  events: errors never exceed keystrokes, the accuracy is a percentage, the
  positions shown as incorrect never outnumber the counted errors, and the
  word and character indices describe the buffer.
- **The leaderboard** (`Leaderboard`, class `LeaderboardComponent`). Tests
  are grouped by user into one row each, holding the best speed, the best
  accuracy and the number of tests. The rows are sorted in place, best
  first, by an insertion sort on an `array`, then ranked 1..n. The page
  also answers rank lookups and badge classes.
- **The server's test service** (`TypingTestService`). It covers the
  character-based speed formula with .NET rounding and the position-wise
  accuracy loop. It also covers the personal-best rule, and creating,
  updating and deleting stored tests in a store whose tables are maps.
- **The upload endpoint** (`BooksController`). It covers the text
  normalisation `CleanTextContent` and the ordered checks and defaults of
  `UploadFile`.
- **The book lists** (`BookSearch`, `Books`, `MyBooks`). They cover the
  case-insensitive search filter, the word count, and the local removal of
  a deleted book.

`Base` holds `Option`, `Result` and the two rounding rules:

- JavaScript `Math.round`, which rounds halves up;
- .NET `Math.Round`, which rounds halves to even.

`Text` holds the string operations of the two runtimes that the model uses:

- `split` on one character and `join`;
- `trim` and the white-space set;
- `slice`, `includes` and ASCII lower-casing.

The browser's clock, `localStorage`, `confirm()` and the HTTP calls are
replaced by plain values:

- the clock is a `now` argument;
- `localStorage` is a `map<(int, int), int>` field;
- the answer to `confirm()` and the server's answer are boolean arguments;
- a saved result is appended to a `savedResults` sequence.

## Model

| member | source | states |
|---|---|---|
| TypingTest.ClassAt | speedtype-frontend/src/app/components/typing-test/typing-test.component.ts:568-577 | a position is incorrect iff it lies in the buffer and the text's character there differs from the typed one; current iff it is the buffer length; untyped iff beyond it |
| TypingTest.MarkedAfterAppend | speedtype-frontend/src/app/components/typing-test/typing-test.component.ts:396-402 | typing one character adds one incorrect mark exactly when it differs from the text at the position it is typed at, so marks track the error counter |
| TypingTest.MarkedAfterBackspace | speedtype-frontend/src/app/components/typing-test/typing-test.component.ts:412-418 | deleting the last typed character never adds an incorrect mark |
| TypingTest.IncorrectBelowAppend | speedtype-frontend/src/app/components/typing-test/typing-test.component.ts:568-577 | appending a character leaves the marks of earlier positions unchanged |
| TypingTest.Accuracy | speedtype-frontend/src/app/components/typing-test/typing-test.component.ts:431-435 | 100 when nothing is typed; between 0 and 100 when errors are at most keystrokes; 100 iff no error once something is typed |
| TypingTest.AccuracyIsShare | speedtype-frontend/src/app/components/typing-test/typing-test.component.ts:431-435 | accuracy times keystrokes equals correct keystrokes times 100 |
| TypingTest.WordsTyped | speedtype-frontend/src/app/components/typing-test/typing-test.component.ts:437-441 | the number of pieces `split(' ')` yields is the number of spaces plus one |
| TypingTest.WordsPerMinute | speedtype-frontend/src/app/components/typing-test/typing-test.component.ts:437-441 | 0 until a whole second has elapsed; never negative for a non-negative word count |
| TypingTest.WordsPerMinuteNearest | speedtype-frontend/src/app/components/typing-test/typing-test.component.ts:437-441 | the speed is words per minute rounded to the nearest integer, halves up |
| TypingTest.FinalStatistics | speedtype-frontend/src/app/components/typing-test/typing-test.component.ts:461-468 | counters and time kept, speed from the words of the trimmed buffer, accuracy recomputed, all within range when errors are at most keystrokes |
| TypingTest.Preview | speedtype-frontend/src/app/components/typing-test/typing-test.component.ts:304-312 | at most 150 words, each the book's word at offset plus its index |
| TypingTest.Window | speedtype-frontend/src/app/components/typing-test/typing-test.component.ts:253-258 | at most `wordCount` words, exactly the contiguous words from the start index when it lies in the book |
| TypingTest.TestTextSplitsIntoWindow | speedtype-frontend/src/app/components/typing-test/typing-test.component.ts:253-259 | the joined test text splits back on spaces into exactly the window's words |
| TypingTest.ClampedConfig | speedtype-frontend/src/app/components/typing-test/typing-test.component.ts:288-298 | word count at least 1, start at least 0 and inside the book, an in-range start kept, a start past the end replaced by max(0, total - count) |
| TypingTest.ClampedConfigIdempotent | speedtype-frontend/src/app/components/typing-test/typing-test.component.ts:288-298 | clamping an already clamped configuration changes nothing |
| TypingTest.ScrolledForward | speedtype-frontend/src/app/components/typing-test/typing-test.component.ts:323-326 | never past max(0, total - 150), never negative from a non-negative offset, a full step of 50 when there is room |
| TypingTest.ScrolledBackward | speedtype-frontend/src/app/components/typing-test/typing-test.component.ts:328-330 | never negative; a full step back of 50 when possible, else 0 |
| TypingTest.ScrollRoundTrip | speedtype-frontend/src/app/components/typing-test/typing-test.component.ts:323-330 | away from the end, forward then backward returns to the same offset |
| TypingTest.TitleFromFileName | speedtype-frontend/src/app/components/typing-test/typing-test.component.ts:154-165 | the suggested title is the file name up to its first dot, first letter upper-cased, and holds no dot |
| TypingTest.LookupPosition | speedtype-frontend/src/app/components/typing-test/typing-test.component.ts:268-277 | a position is found iff the user and the book are known and a position is stored under their key |
| TypingTest.StorePosition | speedtype-frontend/src/app/components/typing-test/typing-test.component.ts:451-455 | the stored position reads back for that user and book, every other key is kept, nothing is stored without a user or a book |
| TypingTest.WithResult | speedtype-frontend/src/app/components/typing-test/typing-test.component.ts:470-483 | with a user and a book, exactly one result is appended carrying the statistics and both ids; otherwise nothing changes |
| TypingTest.TypingTestComponent.constructor | speedtype-frontend/src/app/components/typing-test/typing-test.component.ts:19-66 | the initial fields: no book, empty buffer and text, 50 words from 0, selection shown, invariant holding |
| TypingTest.TypingTestComponent.ResetTest | speedtype-frontend/src/app/components/typing-test/typing-test.component.ts:535-552 | empty buffer, zeroed counters with accuracy 100, no phase flag set, invariant holding |
| TypingTest.TypingTestComponent.CheckResumeOption | speedtype-frontend/src/app/components/typing-test/typing-test.component.ts:268-277 | a stored position becomes the resume position, resumable iff positive; with none stored nothing changes |
| TypingTest.TypingTestComponent.InitializeTest | speedtype-frontend/src/app/components/typing-test/typing-test.component.ts:250-266 | without a book nothing changes; with one, the window, its joined text and the word counts are loaded, the resume check is made and the test reset |
| TypingTest.TypingTestComponent.LoadAndReset | speedtype-frontend/src/app/components/typing-test/typing-test.component.ts:250-266 | the book-present path of `initializeTest`: window loaded, resume checked, test reset |
| TypingTest.TypingTestComponent.PrepareRun | speedtype-frontend/src/app/components/typing-test/typing-test.component.ts:261-264 | resume checked and test reset, the loaded window untouched |
| TypingTest.TypingTestComponent.LoadWindow | speedtype-frontend/src/app/components/typing-test/typing-test.component.ts:253-259 | words are the window of the non-empty space-separated tokens, the text their join, total and maximum word counts set |
| TypingTest.TypingTestComponent.ResumeFromLastPosition | speedtype-frontend/src/app/components/typing-test/typing-test.component.ts:279-282 | the start becomes the stored position and the test is rebuilt from it |
| TypingTest.TypingTestComponent.ShowTestConfiguration | speedtype-frontend/src/app/components/typing-test/typing-test.component.ts:284-286 | only the panel flag changes, to open |
| TypingTest.TypingTestComponent.CancelConfiguration | speedtype-frontend/src/app/components/typing-test/typing-test.component.ts:300-302 | only the panel flag changes, to closed |
| TypingTest.TypingTestComponent.ApplyTestConfiguration | speedtype-frontend/src/app/components/typing-test/typing-test.component.ts:288-298 | word count and start become the clamped configuration, the panel closes, and the test is rebuilt |
| TypingTest.TypingTestComponent.GetPreviewWords | speedtype-frontend/src/app/components/typing-test/typing-test.component.ts:304-312 | at most 150 words, each the book's word at the preview offset plus its index |
| TypingTest.TypingTestComponent.SetStartPosition | speedtype-frontend/src/app/components/typing-test/typing-test.component.ts:314-321 | the start becomes the smaller of the clicked word (preview offset plus the click) and max(0, total - count), so a window that fits the book stays inside it |
| TypingTest.TypingTestComponent.ScrollPreviewForward | speedtype-frontend/src/app/components/typing-test/typing-test.component.ts:323-326 | the offset moves as `ScrolledForward`, the invariant (offset at least 0) kept |
| TypingTest.TypingTestComponent.ScrollPreviewBackward | speedtype-frontend/src/app/components/typing-test/typing-test.component.ts:328-330 | the offset moves as `ScrolledBackward`, the invariant kept |
| TypingTest.TypingTestComponent.ResetPreview | speedtype-frontend/src/app/components/typing-test/typing-test.component.ts:332-335 | offset and start both return to 0 |
| TypingTest.TypingTestComponent.StartTest | speedtype-frontend/src/app/components/typing-test/typing-test.component.ts:379-389 | the test runs and its clock starts at `now` |
| TypingTest.TypingTestComponent.Tick | speedtype-frontend/src/app/components/typing-test/typing-test.component.ts:384-388 | while running: whole seconds since the start and the live speed from the buffer; when not running nothing changes |
| TypingTest.TypingTestComponent.UpdateWordTracking | speedtype-frontend/src/app/components/typing-test/typing-test.component.ts:420-429 | the word index is the number of spaces typed; the character index is the length after the last space |
| TypingTest.TypingTestComponent.CalculateStats | speedtype-frontend/src/app/components/typing-test/typing-test.component.ts:431-435 | only the accuracy changes, to the share of correct keystrokes |
| TypingTest.TypingTestComponent.CalculateWpm | speedtype-frontend/src/app/components/typing-test/typing-test.component.ts:437-441 | only the speed changes, to the words of the buffer per elapsed minute |
| TypingTest.TypingTestComponent.CalculateFinalStats | speedtype-frontend/src/app/components/typing-test/typing-test.component.ts:461-468 | the statistics become `FinalStatistics` of the buffer |
| TypingTest.TypingTestComponent.SaveTestResult | speedtype-frontend/src/app/components/typing-test/typing-test.component.ts:470-483 | results become `WithResult`: one record appended when user and book are known |
| TypingTest.TypingTestComponent.CompleteTest | speedtype-frontend/src/app/components/typing-test/typing-test.component.ts:443-459 | not running and completed; position start + window length stored; final statistics; result saved |
| TypingTest.TypingTestComponent.StopTest | speedtype-frontend/src/app/components/typing-test/typing-test.component.ts:337-377 | nothing changes unless running and confirmed; then completed and stopped, position start + word index stored only past the first word, result saved only after a keystroke, invariant and phase consistency kept |
| TypingTest.TypingTestComponent.FinishStop | speedtype-frontend/src/app/components/typing-test/typing-test.component.ts:353-375 | the confirmed stop: completed and stopped, with the conditional position and result |
| TypingTest.TypingTestComponent.StorePartialPosition | speedtype-frontend/src/app/components/typing-test/typing-test.component.ts:362-366 | a position is stored only when the word index is positive |
| TypingTest.TypingTestComponent.SavePartialResult | speedtype-frontend/src/app/components/typing-test/typing-test.component.ts:368-371 | a result is saved only when a keystroke was counted |
| TypingTest.TypingTestComponent.HandleCharacterInput | speedtype-frontend/src/app/components/typing-test/typing-test.component.ts:391-410 | the character is appended, keystrokes go up by one, errors go up by one iff it differs from the text at the old buffer length; the test completes and stores its position as soon as the buffer reaches the text's length, otherwise it stays running with the buffer shorter than the text |
| TypingTest.TypingTestComponent.CompleteWhenTyped | speedtype-frontend/src/app/components/typing-test/typing-test.component.ts:407-409 | completion happens iff the buffer has reached the text's length |
| TypingTest.TypingTestComponent.AppendCharacter | speedtype-frontend/src/app/components/typing-test/typing-test.component.ts:396-405 | buffer extended by the character, counters updated by the comparison made before the append, invariant kept |
| TypingTest.TypingTestComponent.HandleBackspace | speedtype-frontend/src/app/components/typing-test/typing-test.component.ts:412-418 | on a non-empty buffer exactly the last character goes and both counters stay; on an empty buffer nothing changes |
| TypingTest.TypingTestComponent.HandleKeyDown | speedtype-frontend/src/app/components/typing-test/typing-test.component.ts:214-235 | nothing changes unless a test runs; Ctrl+S stops it when confirmed; otherwise only Backspace and single characters act, and only before completion; counters never go down |
| TypingTest.TypingTestComponent.GoToSelection | speedtype-frontend/src/app/components/typing-test/typing-test.component.ts:562-566 | back to the book list, no book, test reset |
| TypingTest.TypingTestComponent.SelectBook | speedtype-frontend/src/app/components/typing-test/typing-test.component.ts:135-152 | the fetched book is loaded into a reset test and the configuration panel opens |
| TypingTest.TypingTestComponent.LeaveSelection | speedtype-frontend/src/app/components/typing-test/typing-test.component.ts:142-144 | the book list closes and the configuration panel opens, window untouched |
| TypingTest.TypingTestComponent.OnFileSelected | speedtype-frontend/src/app/components/typing-test/typing-test.component.ts:154-165 | with a file, it is remembered and the title suggested from its name; without one nothing changes |
| TypingTest.TypingTestComponent.GetCharacterClass | speedtype-frontend/src/app/components/typing-test/typing-test.component.ts:568-577 | incorrect iff typed and different from the text there; current iff at the buffer's end |
| Leaderboard.StatsKeys | speedtype-frontend/src/app/components/leaderboard/leaderboard.component.ts:78-99 | the grouped users are exactly those with a test, each listed once in insertion order, each key carrying its own user |
| Leaderboard.StatsOf | speedtype-frontend/src/app/components/leaderboard/leaderboard.component.ts:78-99 | every grouped user's statistics carry that user and count at least one test |
| Leaderboard.UserIds | speedtype-frontend/src/app/components/leaderboard/leaderboard.component.ts:78-99 | the insertion order lists no more users than there are tests |
| Leaderboard.Entries | speedtype-frontend/src/app/components/leaderboard/leaderboard.component.ts:103-116 | at most one row per listed id, exactly one when every id has statistics, all unranked |
| Leaderboard.Grouped | speedtype-frontend/src/app/components/leaderboard/leaderboard.component.ts:78-116 | no more rows than tests, all unranked before sorting |
| Leaderboard.BestIsMaximum | speedtype-frontend/src/app/components/leaderboard/leaderboard.component.ts:86-96 | best speed and accuracy are at least 0 and every one of the user's tests, and equal 0 or one of them |
| Leaderboard.CountByAppend | speedtype-frontend/src/app/components/leaderboard/leaderboard.component.ts:97 | a test added at the end counts for its user only |
| Leaderboard.CountIsNumberOfTests | speedtype-frontend/src/app/components/leaderboard/leaderboard.component.ts:97 | a user's test count is the number of that user's tests |
| Leaderboard.CountsAddUp | speedtype-frontend/src/app/components/leaderboard/leaderboard.component.ts:78-116 | the counts of all rows add up to the number of tests that carry a user |
| Leaderboard.TotalCountBump | speedtype-frontend/src/app/components/leaderboard/leaderboard.component.ts:97 | one more test for a listed user adds one to the total count |
| Leaderboard.TotalCountAppend | speedtype-frontend/src/app/components/leaderboard/leaderboard.component.ts:103-116 | the total of rows plus one is the total plus that row's count |
| Leaderboard.EntriesAgree | speedtype-frontend/src/app/components/leaderboard/leaderboard.component.ts:103-116 | rows depend only on the statistics of the listed users |
| Leaderboard.EntriesFollowOrder | speedtype-frontend/src/app/components/leaderboard/leaderboard.component.ts:103-116 | one row per key, in key order, each built from its user's statistics |
| Leaderboard.GroupedOnePerUser | speedtype-frontend/src/app/components/leaderboard/leaderboard.component.ts:78-116 | a user has a row iff the user has a test, no user has two, each row carries that user's statistics |
| Leaderboard.SortByKey | speedtype-frontend/src/app/components/leaderboard/leaderboard.component.ts:123-128 | non-increasing by the key afterwards, and a permutation of the rows |
| Leaderboard.InsertLast | speedtype-frontend/src/app/components/leaderboard/leaderboard.component.ts:123-128 | one insertion step extends the sorted prefix by one row, permuting the rows |
| Leaderboard.Swapped | speedtype-frontend/src/app/components/leaderboard/leaderboard.component.ts:123-128 | exchanging two neighbours keeps the multiset of rows |
| Leaderboard.StartInsert | speedtype-frontend/src/app/components/leaderboard/leaderboard.component.ts:123-128 | before an insertion the new row is the only one out of place |
| Leaderboard.SwapStep | speedtype-frontend/src/app/components/leaderboard/leaderboard.component.ts:123-128 | moving the out-of-place row left past a row it beats keeps the insertion invariant and the rows |
| Leaderboard.EndInsert | speedtype-frontend/src/app/components/leaderboard/leaderboard.component.ts:123-128 | an insertion that stops at a row at least as good leaves the prefix sorted |
| Leaderboard.AssignRanks | speedtype-frontend/src/app/components/leaderboard/leaderboard.component.ts:131-133 | row i gets rank i + 1 and nothing else changes |
| Leaderboard.SortedUpToRank | speedtype-frontend/src/app/components/leaderboard/leaderboard.component.ts:123-133 | assigning ranks keeps the rows sorted |
| Leaderboard.FindUser | speedtype-frontend/src/app/components/leaderboard/leaderboard.component.ts:142 | none iff no row has the id; otherwise the first row with it |
| Leaderboard.RankOfPosition | speedtype-frontend/src/app/components/leaderboard/leaderboard.component.ts:141-144 | on ranked rows, 0 iff the user has no row, otherwise the 1-based position of the user's first row |
| Leaderboard.RankBadgeClass | speedtype-frontend/src/app/components/leaderboard/leaderboard.component.ts:150-155 | gold iff rank 1, silver iff 2, bronze iff 3, default iff any other rank |
| Leaderboard.MedalsForTopThree | speedtype-frontend/src/app/components/leaderboard/leaderboard.component.ts:150-155 | on ranked rows exactly the first three get a medal |
| Leaderboard.GroupByUser | speedtype-frontend/src/app/components/leaderboard/leaderboard.component.ts:78-99 | the loop builds exactly the grouped statistics and their key order |
| Leaderboard.BuildEntries | speedtype-frontend/src/app/components/leaderboard/leaderboard.component.ts:101-116 | the loop builds exactly one row per key in order |
| Leaderboard.LeaderboardComponent.constructor | speedtype-frontend/src/app/components/leaderboard/leaderboard.component.ts:27-32 | no rows, the speed tab active, the signed-in user kept |
| Leaderboard.LeaderboardComponent.GenerateLeaderboard | speedtype-frontend/src/app/components/leaderboard/leaderboard.component.ts:66-120 | the rows are the grouped rows up to order and rank, sorted by best speed and ranked 1..n |
| Leaderboard.LeaderboardComponent.SortLeaderboard | speedtype-frontend/src/app/components/leaderboard/leaderboard.component.ts:123-134 | "wpm" sorts by speed, "accuracy" by accuracy, any other key keeps the order; always a permutation, ranked 1..n |
| Leaderboard.LeaderboardComponent.SwitchTab | speedtype-frontend/src/app/components/leaderboard/leaderboard.component.ts:136-139 | the tab is remembered and the rows re-sorted and re-ranked by it |
| Leaderboard.LeaderboardComponent.GetUserRank | speedtype-frontend/src/app/components/leaderboard/leaderboard.component.ts:141-144 | 0 iff the user has no row, otherwise the row at that rank belongs to the user |
| TypingTestService.CalculateWpm | speedtype.BLL/Services/TypingTestService.cs:107-116 | 0 when no time has passed; otherwise the nearest integer to 12 * characters / seconds, a tie going to the even one; never negative |
| TypingTestService.WpmMonotone | speedtype.BLL/Services/TypingTestService.cs:107-116 | more characters in the same time never give a lower speed |
| TypingTestService.RoundMonotone | speedtype.BLL/Services/TypingTestService.cs:113-115 | rounding half to even keeps the order of numerators |
| TypingTestService.MatchesBelow | speedtype.BLL/Services/TypingTestService.cs:125-132 | the matches below n are at most n |
| TypingTestService.Accuracy | speedtype.BLL/Services/TypingTestService.cs:118-136 | 0 when either string is empty, never negative; AccuracyInRange bounds it by 100 |
| TypingTestService.MatchesBeyond | speedtype.BLL/Services/TypingTestService.cs:125-132 | positions past the shorter string never match |
| TypingTestService.MatchesAgree | speedtype.BLL/Services/TypingTestService.cs:125-132 | matches below n depend only on the first n typed characters |
| TypingTestService.AccuracyInRange | speedtype.BLL/Services/TypingTestService.cs:118-136 | the accuracy lies between 0 and 100 |
| TypingTestService.AccuracyIgnoresExtra | speedtype.BLL/Services/TypingTestService.cs:123-135 | characters typed past the end of the original change nothing |
| TypingTestService.AccuracyOfExactCopy | speedtype.BLL/Services/TypingTestService.cs:123-135 | typing the original exactly scores 100 |
| TypingTestService.AllMatch | speedtype.BLL/Services/TypingTestService.cs:125-132 | a string matches itself at every position |
| TypingTestService.CalculateAccuracy | speedtype.BLL/Services/TypingTestService.cs:118-136 | the loop computes `Accuracy`: 0 for an empty string, else correct positions over the original's length times 100 |
| TypingTestService.WithPersonalBest | speedtype.BLL/Services/TypingTestService.cs:138-147 | same books; only the named book can change, and only to `wpm` when it belongs to the user and `wpm` beats its best; no best decreases |
| TypingTestService.WithScores | speedtype.BLL/Services/TypingTestService.cs:73-78 | exactly speed, accuracy, errors, time and characters typed are copied; id, book, user and date kept |
| TypingTestService.TypingTestStore.constructor | speedtype.BLL/Services/TypingTestService.cs:51-63 | an empty test table over the given books, the invariant holding |
| TypingTestService.TypingTestStore.CreateTest | speedtype.BLL/Services/TypingTestService.cs:51-63 | the test is stored under a fresh id with date `now`, nothing else in the table changes, and the personal-best rule runs for its user, book and speed |
| TypingTestService.TypingTestStore.UpdatePersonalBest | speedtype.BLL/Services/TypingTestService.cs:138-147 | the books become `WithPersonalBest` |
| TypingTestService.TypingTestStore.UpdateTest | speedtype.BLL/Services/TypingTestService.cs:65-83 | an unknown id fails with "Test not found" and changes nothing; otherwise the stored test takes the request's scores |
| TypingTestService.TypingTestStore.DeleteTest | speedtype.BLL/Services/TypingTestService.cs:85-95 | an unknown id fails with "Test not found"; otherwise exactly that test is removed |
| BooksController.SplitLines | speedtype.API/Controllers/BooksController.cs:333 | splitting at line breaks always yields at least one piece |
| BooksController.SplitLinesPieces | speedtype.API/Controllers/BooksController.cs:333 | no piece holds a line break, and every other character lands in some piece |
| BooksController.SplitLinesNone | speedtype.API/Controllers/BooksController.cs:333 | a string without line breaks is a single piece |
| BooksController.RemoveEmpty | speedtype.API/Controllers/BooksController.cs:333 | every kept piece is a non-empty piece of the input |
| BooksController.RemoveEmptyComplete | speedtype.API/Controllers/BooksController.cs:333 | every non-empty piece is kept |
| BooksController.TrimEach | speedtype.API/Controllers/BooksController.cs:334 | each line is replaced by its trimmed form, count kept |
| BooksController.CleanLines | speedtype.API/Controllers/BooksController.cs:333-335 | no kept line is blank |
| BooksController.CleanTextContent | speedtype.API/Controllers/BooksController.cs:327-338 | blank input gives the empty string; with CleanEmptyIffBlank, CleanHasNoLineBreaks and CleanIsTrimmed, the result is the kept lines joined by single spaces |
| BooksController.CleanLinesShape | speedtype.API/Controllers/BooksController.cs:333-335 | every kept line is non-empty, free of line breaks and starts and ends with a non-white character |
| BooksController.CleanHasNoLineBreaks | speedtype.API/Controllers/BooksController.cs:327-338 | the cleaned text contains no '\r' or '\n' |
| BooksController.CleanIsTrimmed | speedtype.API/Controllers/BooksController.cs:327-338 | the cleaned text neither starts nor ends with white space |
| BooksController.CleanEmptyIffBlank | speedtype.API/Controllers/BooksController.cs:327-338 | the cleaned text is empty iff the input is blank |
| BooksController.CleanIdempotent | speedtype.API/Controllers/BooksController.cs:327-338 | cleaning cleaned text changes nothing |
| BooksController.LastIndexOf | speedtype.API/Controllers/BooksController.cs:198 | -1 or the index of the last occurrence |
| BooksController.FileName | speedtype.API/Controllers/BooksController.cs:198 | the file name part of a path holds no separator |
| BooksController.FileNameOfPath | speedtype.API/Controllers/BooksController.cs:198 | the file name is the end of the path after its last '/', or the whole path when it has none |
| BooksController.Extension | speedtype.API/Controllers/BooksController.cs:198 | empty, or a dot followed by at least one character and no further dot |
| BooksController.ExtensionOfPath | speedtype.API/Controllers/BooksController.cs:198 | the extension is empty exactly when the file name has no dot or ends with one, and is otherwise the end of the file name from its last dot |
| BooksController.FileNameWithoutExtension | speedtype.API/Controllers/BooksController.cs:247 | the file name without extension holds no separator |
| BooksController.FileNameWithoutExtensionOfPath | speedtype.API/Controllers/BooksController.cs:247 | the name without extension is the whole file name when it has no dot, and otherwise the part of it before its last dot |
| BooksController.NameSplitsAtExtension | speedtype.API/Controllers/BooksController.cs:198-247 | the name without extension followed by the extension is the file name (a trailing dot aside) |
| BooksController.UploadFile | speedtype.API/Controllers/BooksController.cs:188-264 | each refusal happens exactly when the earlier checks pass and its own fails (no file, extension not allowed in any case, over 5 MiB); the upload is accepted exactly when a non-empty file of at most 5 MiB with an allowed extension holds non-blank text; an accepted book holds the cleaned text, free of line breaks and outer white space, personal best 0, title and author defaults, the request's other fields, the request's user as owner |
| BooksController.UploadEmptyContent | speedtype.API/Controllers/BooksController.cs:237-242 | the empty-content refusal happens exactly when the earlier checks pass and the text is blank |
| BookSearch.Filter | speedtype-frontend/src/app/components/books/books.component.ts:61-65 | the filtered list is no longer than the list |
| BookSearch.MatchesQuery | speedtype-frontend/src/app/components/books/books.component.ts:61-65 | the empty query matches every book |
| BookSearch.FilterMembers | speedtype-frontend/src/app/components/books/books.component.ts:61-65 | a book is shown iff it is listed and its lower-cased title, author or description contains the lower-cased query |
| BookSearch.FilterKeepsOrder | speedtype-frontend/src/app/components/books/books.component.ts:61 | the filtered books keep the list's order |
| BookSearch.FilterIdempotent | speedtype-frontend/src/app/components/books/books.component.ts:61-65 | filtering twice by a query is filtering once |
| BookSearch.SearchShows | speedtype-frontend/src/app/components/books/books.component.ts:55-66 | a blank query shows every book; any other shows exactly the matching listed books |
| BookSearch.SearchResult | speedtype-frontend/src/app/components/books/books.component.ts:55-66 | a blank query shows the whole list, and no query shows more books than listed |
| BookSearch.WordCount | speedtype-frontend/src/app/components/books/books.component.ts:76-78 | 0 iff the content is empty, otherwise the number of spaces plus one |
| BookSearch.WordCountOfJoin | speedtype-frontend/src/app/components/books/books.component.ts:76-78 | words joined by single spaces count one by one |
| BookSearch.WithoutId | speedtype-frontend/src/app/components/my-books/my-books.component.ts:83 | the list without the id is no longer than the list |
| BookSearch.WithoutIdKeepsOrder | speedtype-frontend/src/app/components/my-books/my-books.component.ts:83 | the remaining books keep the list's order |
| BookSearch.WithoutIdMembers | speedtype-frontend/src/app/components/my-books/my-books.component.ts:83 | exactly the books with that id are removed |
| BookSearch.RemoveThenSearch | speedtype-frontend/src/app/components/my-books/my-books.component.ts:83-84 | removing a book then searching equals searching then removing it |
| Books.BooksComponent.constructor | speedtype-frontend/src/app/components/books/books.component.ts:39-53 | all loaded books listed and shown, empty query |
| Books.BooksComponent.OnSearch | speedtype-frontend/src/app/components/books/books.component.ts:55-66 | the shown list becomes the search result over all books, which are left alone |
| MyBooks.MyBooksComponent.constructor | speedtype-frontend/src/app/components/my-books/my-books.component.ts:39-55 | the user's loaded books listed and shown, empty query and message |
| MyBooks.MyBooksComponent.OnSearch | speedtype-frontend/src/app/components/my-books/my-books.component.ts:57-68 | the shown list becomes the search result over the user's books, which are left alone |
| MyBooks.MyBooksComponent.DeleteBook | speedtype-frontend/src/app/components/my-books/my-books.component.ts:79-92 | nothing unless confirmed; on success exactly the books with that id leave the user's list and the search reruns; on error only the message is set |
| MyBooks.DeletedBookHidden | speedtype-frontend/src/app/components/my-books/my-books.component.ts:83-84 | after a deletion the book is shown nowhere, and what is shown is the earlier result minus that book |
| Text.SplitJoin | speedtype-frontend/src/app/components/typing-test/typing-test.component.ts:253-258 | words without the separator, joined and split again, come back unchanged |
| Text.Words | speedtype-frontend/src/app/components/typing-test/typing-test.component.ts:253 | the book's words are non-empty, space-free and not blank |
| Text.TrimProperties | speedtype.API/Controllers/BooksController.cs:334 | trimming removes exactly the outer white space |
| Base.RoundHalfUpNearest | speedtype-frontend/src/app/components/typing-test/typing-test.component.ts:437-441 | JavaScript rounding is within a half of the quotient, a tie going up |
| Base.RoundHalfEvenNearest | speedtype.BLL/Services/TypingTestService.cs:113-115 | .NET rounding is within a half of the quotient, a tie going to the even neighbour |

## Left out

- Timers and the clock: the 100 ms `interval` subscription is the `Tick(now)` method, and `Date.now()` is the `now` argument of `StartTest`, `Tick` and `HandleCharacterInput`.
- Browser facilities: `confirm()` answers are boolean arguments. `localStorage` is the map field `positions`. Toast elements, router navigation and `isLoading` flags are not modelled.
- HTTP calls: the book fetch in `selectBook` is modelled by its success branch (`SelectBook(fetched)`), and its error branch (an error message) is not modelled. The result upload is an append to `savedResults`. Server responses to `deleteBook` are the `serverAccepted` argument. The books list and user books arrive through the constructors.
- The second subscription that `startTest` opens without releasing the first is not modelled: only one timer is.
- `startRandomTest` uses `Math.random` and is not modelled. `uploadFile`, `loadAvailableBooks` and `loadBook` are HTTP plumbing around `SelectBook`.
- `ngOnInit`, `ngOnDestroy`, `logout` and the authentication checks are not modelled; the signed-in user is a constructor argument.
- Floating point: speeds and accuracies are mathematical reals and integers. .NET float division in `CalculateWPMAsync` is modelled as exact division before rounding, and float rounding error is not modelled.
- Strings: white space is one fixed set (ASCII white space, U+00A0, U+2028, U+2029), and upper- and lower-casing are ASCII only. Unicode categories and culture-sensitive casing are not modelled.
- Leaderboard.SortByKey: stability of JavaScript's `sort` (equal rows keep their order) is not proved, only sortedness and permutation.
- Leaderboard.LeaderboardComponent.GetUserRank: requires the rows to be ranked (`Valid`), which every method of the class establishes.
- The leaderboard's `averageWpm`/`averageAccuracy` fields, `loadLeaderboardData` and `topTests` are floating-point averages and HTTP; they are not modelled.
- Leaderboard.LeaderboardComponent.IsCurrentUser is a one-line comparison and carries no contract.
- Database access: the unit of work and repositories are the maps of `TypingTestStore`, and the identity column is the `nextId` field. `CreateTestAsync` sets `Id = 0` and lets the database choose; the model states the chosen id directly.
- TypingTestService.TypingTestStore.CreateTest: `DateTime.UtcNow` is the `now` argument.
- `UploadFile`: reading the stream (UTF-8 decoding, .doc and .docx read as text) is replaced by the `text` field of the upload. `CreateBookAsync`, which assigns the id, is not modelled. The 500 answer on an exception is not modelled.
- BooksController.FileName: only '/' is a directory separator; the Windows separators of `Path.GetFileName` are not modelled.
- The `getWordCount` of my-books.component.ts is the same expression as in books.component.ts and is modelled once, by `BookSearch.WordCount`.
- TypingTest.TypingTestComponent.CompleteTest: requires only `errors <= charactersTyped`, not the whole invariant; its callers re-establish the invariant.
- TypingTest.TypingTestComponent.FinishStop: requires only a running test and `errors <= charactersTyped`; `StopTest` re-establishes the invariant.
- The `startTest` called lazily by `handleCharacterInput` cannot be reached through `handleKeyDown`, which ignores keys while no test runs. `HandleKeyDown`'s contract states this: nothing changes when no test runs.
- Keys outside the Basic Multilingual Plane: `handleKeyDown` tests `event.key.length === 1` in UTF-16 code units, so a key such as an emoji (two code units) is ignored there. The model's strings are sequences of characters, so `HandleKeyDown` types such a key as one character.
- `restartTest` only calls `resetTest` and is modelled by `ResetTest`.
