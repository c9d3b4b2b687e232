# Vocabulary Matcher, modelled in Dafny

Vocabulary Matcher is a browser game for learning English–Vietnamese word
pairs (`script.js`). It works in four stages:

- It loads lessons from the numbered text files `word1.txt`, `word2.txt`, …
  until one is missing or cannot be fetched. A lesson file has a title on its first line and then
  one `english - vietnamese` pair per line.
- It shows each lesson with the number of times the signed-in user has
  completed it. These counts come from per-user Firestore documents.
- When a lesson starts, it deals the English words and the Vietnamese
  meanings into two independently shuffled columns.
- The learner then clicks one card in each column. Each pair of clicks is
  one attempt. A correct pick marks both cards matched, and clicks on them
  are ignored after that. When the last pair is matched, the lesson's play
  count goes up by one.

The model covers this logic:

- `Text`: the parts of JavaScript's `String.prototype.split` and `trim` and
  of decimal number formatting that the parser depends on.
- `Shuffle`: the Fisher–Yates `shuffleArray`. `Math.random()` is replaced
  by a sequence of drawn indices.
- `Lessons`: the lesson and word-pair records.
- `LessonParser`: how a lesson file's text becomes a lesson, and a writer
  for lesson files that the parser inverts.
- `LessonLoader`: the `wordN.txt` file loop, as a fold over the list of
  fetch outcomes.
- `MatchGame`: the game's global state and its three transitions,
  `initializeGame`, `handleCardClick` and `checkMatch`.
- `PlayCounts`: the Firestore progress documents, modelled as a map from
  file name to count, and the two functions that read and update them.
- `LessonSession`: a game played with the play-count update attached.

The model follows `script.js`.

## Model

| member | source | states |
|---|---|---|
| Text.IndexOf | script.js:142 | the position found is the first occurrence of the separator at or after the start, and `None` means it does not occur there at all |
| Text.SplitIsSplit | script.js:132 | `split` cuts the text at the leftmost occurrences of the separator, left to right: the pieces joined with the separator give back the text, no piece before the last contains the separator or starts one that runs into the next piece, and the last piece contains none |
| Text.SplitUnique | script.js:132 | any decomposition with that shape is the one `split` returns, so `split` is characterised by it |
| Text.JoinSplit | script.js:132 | joining the pieces of a split with the separator gives back the text |
| Text.SplitOnChar | script.js:132 | splitting on `'\n'` recovers exactly the newline-free lines that were joined with it |
| Text.TrimStartSpec | script.js:140 | the leading part `trim` removes is all white space, and what remains does not start with white space |
| Text.TrimEndSpec | script.js:140 | the trailing part `trim` removes is all white space, and what remains does not end with white space |
| Text.TrimSpec | script.js:132 | `trim` cuts only white space, from the two ends, leaves no white space at either end, and returns `""` exactly when the text is all white space |
| Text.TrimTrimmed | script.js:145-146 | a text with no white space at either end is its own trim |
| Text.NatToString | script.js:117 | the decimal rendering of `lessonIndex` and of the word index is non-empty, all digits, has no leading zero, and reads back as the number |
| Text.NatToStringInjective | script.js:147 | different numbers render as different strings |
| Shuffle.PassesPermutes | script.js:294-297 | each pass swaps two positions at or below its own index, so the passes rearrange the elements and leave everything above the current index alone |
| Shuffle.ShuffledPermutes | script.js:293-299 | whatever indices are drawn, the shuffled sequence has the same length and the same elements, with the same multiplicities |
| Shuffle.SelfDrawsKeepOrder | script.js:294-297 | when every draw picks its own position, nothing moves |
| Shuffle.ShuffleArray | script.js:293-299 | the loop from the last index down to 1, swapping with a drawn `j <= i`, returns a permutation of its input; it equals the pass-by-pass definition and leaves inputs of length 0 or 1 unchanged |
| Lessons.IdsCount | script.js:147 | when ids are distinct, a lesson has as many ids as pairs |
| LessonParser.BlankIffAllSpace | script.js:132 | a line is filtered out exactly when it consists of white space only |
| LessonParser.NonBlankLines | script.js:132 | the kept lines are exactly the lines that are not blank, there are no more of them than input lines, and the first kept line is the first non-blank input line |
| LessonParser.NonBlankLinesAppend | script.js:132 | filtering commutes with concatenation, so the kept lines keep their order |
| LessonParser.NonBlankLinesKeepsAll | script.js:132 | filtering keeps a list of non-blank lines unchanged |
| LessonParser.WellFormedIff | script.js:142-143 | a line is accepted exactly when it has one occurrence of `" - "`, splitting it into a part before and a part after with no further separator |
| LessonParser.SplitAtTwo | script.js:142-143 | the two parts of an accepted line are the text before and the text after its only separator |
| LessonParser.TwoSeparatorsRejected | script.js:142-143 | a line with two separators, `"a - b - c"`, splits into three parts and is skipped |
| LessonParser.BareDashRejected | script.js:142-143 | a line whose dash has no spaces around it, `"a-b"`, has no separator and is skipped |
| LessonParser.OneSeparatorAccepted | script.js:142-143 | a line with one separator, `"cat - meo"`, is accepted |
| LessonParser.ParseLineSpec | script.js:141-152 | an accepted line becomes the pair of its two trimmed halves with id `<file>-word-<index>`; a rejected line becomes nothing |
| LessonParser.WordIdInjective | script.js:147 | the ids given to different lines of one file differ |
| LessonParser.GoodIndices | script.js:141-152 | the positions of the accepted lines are in range, strictly increasing, and include every accepted line |
| LessonParser.GoodIndicesExact | script.js:141-152 | a position is picked exactly when its line is accepted |
| LessonParser.AllGoodIndices | script.js:141-152 | when every line is accepted, each line keeps its own position |
| LessonParser.VocabFrom | script.js:141-152 | parsing each line after the title and dropping the malformed ones keeps one pair per accepted line, in line order, each parsed with the index of its line among the vocabulary lines |
| LessonParser.VocabIdsDistinct | script.js:147 | the word ids of a lesson are all different |
| LessonParser.ParseLesson | script.js:132-164 | a file gives a lesson exactly when it has a non-blank line and at least one accepted pair line; the lesson's title is the trimmed first line and is non-empty, its pairs are those of the following lines, its ids are distinct, and its play count starts at 0 |
| LessonParser.TitleIsFirstNonBlankLine | script.js:132-140 | the title of a parsed lesson is the first non-blank line of the file, trimmed |
| LessonParser.ParseFormatRoundTrip | script.js:132-164 | writing a lesson as a title line followed by `english - vietnamese` lines, then parsing it, gives back the same lesson |
| LessonLoader.FileNumberOfFileName | script.js:117 | the number can be read back from `word<n>.txt` |
| LessonLoader.FileNameInjective | script.js:117 | different file numbers give different file names |
| LessonLoader.Reached | script.js:116-172 | the loop gets through exactly the fetches before the first 404 or failure |
| LessonLoader.LoadFrom | script.js:116-172 | every lesson loaded is the parse of one file fetched before the loop stopped, the lessons come in file-number order, and every such file that parses contributes its lesson |
| LessonLoader.LoadedLessons | script.js:154-164 | every loaded lesson has pairs, distinct ids and a play count of 0, and no two come from the same file |
| LessonLoader.StopsAtFirstFailure | script.js:121-129 | what happens after the first 404 or failed fetch makes no difference to the result |
| MatchGame.InitializeGame | script.js:468-477 | a new round zeroes the counters, clears both selections and matches, and deals each column as a rearrangement of the lesson's cards; with distinct ids the round starts in the invariant, at rest |
| MatchGame.HandleCardClick | script.js:346-376 | a click on a matched card changes nothing; any other click makes the card its column's selection and keeps the other column's, and a check is scheduled exactly when both columns have a selection |
| MatchGame.CheckMatch | script.js:382-432 | each check is one attempt and clears both selections; the two cards match exactly when their ids are equal, which raises the score and the match count by one and marks the id matched; the lesson completes exactly when that match is the last one |
| MatchGame.ColumnIds | script.js:327-328 | each column holds one card per pair, and every card belongs to the lesson |
| MatchGame.MatchesBounded | script.js:388-408 | the score equals the match count, which never exceeds the number of pairs |
| MatchGame.CompleteIgnoresClicks | script.js:350-352 | once every pair is matched, every click is ignored |
| MatchGame.StepPreservesInv | script.js:346-432 | a click, with the check it may trigger, keeps the invariant and leaves the game at rest; the counts never go down, and the lesson completes exactly when the step brings the match count up to the number of pairs |
| MatchGame.RunCompletesOnce | script.js:406-417 | over any sequence of clicks, the completion branch runs once if the lesson is unfinished at the start and finished at the end, and never otherwise |
| MatchGame.FreshGameCompletesOnce | script.js:406-417 | after a new round, the lesson completes exactly when every pair ends up matched, and then only once |
| PlayCounts.MergeCounts | script.js:188-211 | fetching the counts changes only the lessons' play counts, and nothing when Firebase is not ready or the query fails |
| PlayCounts.MergeSyncs | script.js:197-205 | after a successful fetch, every lesson shows the count stored for its file (0 when there is none), and fetching again changes nothing |
| PlayCounts.MergeKeepsSynced | script.js:197-205 | lessons that already show the stored counts are left as they are |
| PlayCounts.RecordPlay | script.js:226-234 | the write adds one to the file's count, creating the document with count 1 when it is missing, and touches no other document |
| PlayCounts.BumpLocal | script.js:236-239 | only the first lesson from the file gets one more play, and nothing else about the lessons changes |
| PlayCounts.UpdatePlayCount | script.js:218-241 | the update changes nothing when Firebase is not ready or a call fails; otherwise it raises only the given file's stored count, by one, whatever the lessons show |
| PlayCounts.UpdateKeepsSynced | script.js:218-241 | when each file has one lesson, the update keeps every lesson showing its stored count, and only the updated file's count moves, by exactly one |
| LessonSession.Click | script.js:346-432 | a click moves the game on as the game model says, and leaves the progress alone unless it completes the lesson |
| LessonSession.UpdateKeepsFilenames | script.js:236-239 | an update keeps the file names of the lessons distinct |
| LessonSession.PlayRecordsCompletions | script.js:406-417 | over a sequence of clicks, the stored count of the lesson's file goes up once per completion, no other file's count moves, and the lessons stay in step with the store |
| LessonSession.PlayStoreCounts | script.js:406-417 | from any session, in sync with the store or not, the stored count of the lesson's file goes up once per completion when Firebase is ready and its calls succeed, and no other file's count moves |
| LessonSession.FreshPlayCountsOnce | script.js:406-417 | playing a fresh round raises the lesson's stored count by exactly one when every pair ends up matched and Firebase is ready and its calls succeed, and otherwise leaves it alone, whether or not the lessons start in sync with the store; lessons that start in sync stay in sync |

## Left out

- Firebase sign-in (`initializeFirebase`, script.js:51-101) is left out. The model receives its result as the boolean `ready`.
- HTTP, Firestore calls and their exceptions are not modelled. A fetch is one of the outcomes `Fetched`, `NotFound` and `Failed`. A Firestore read or write that throws is the boolean `failed`, and the model treats it as "nothing changes". Firestore paths (`artifacts/${__app_id}/users/...`) are reduced to the file name that keys a document.
- Rendering is left out: the DOM, CSS classes, the feedback and score texts, `getRandomFeedback`, `updateFeedback`, `updateScoreDisplay`, `displayLessonSelection` and `createCard`. The classes `selected` and `matched` become the game's two selection slots and its set of matched ids.
- Timers (`setTimeout`, 500/700/800 ms) are left out. A scheduled `checkMatch` runs at once, as part of the click that scheduled it. The clearing of an incorrect pick after 800 ms is also done at once, together with the 700 ms delayed completion branch. Clicks that arrive while a timer is pending are not modelled.
- LessonSession.PlayRecordsCompletions: whether Firebase is ready and whether its calls fail are fixed for a whole session, where the source checks them afresh on each call (script.js:219-240). A round completes at most once, so a round makes at most one such call.
- `Math.random()` is replaced by the sequence of indices it would draw, one per pass with `0 <= j <= i`. The model does not state that the shuffle is uniform.
- `shuffleArray` shuffles its array in place and returns it. `Shuffle.ShuffleArray` returns the shuffled sequence instead.
- A click whose target is not a card (script.js:350) is not modelled. A click always names a column and a position on the board.
- `startLesson` (script.js:276-285) is left out apart from its call to `initializeGame`. The reset button (script.js:480) also just calls `initializeGame`.
- `chat-gemini.js` and any text-generation features are left out. They are not part of this model.
- PlayCounts.MergeCounts: does not model `playCount || 0` on stored values that are not numbers. A document's count is either a number or absent, where `None` stands for missing or falsy fields.
- PlayCounts.BumpLocal: the lesson's own `(playCount || 0) + 1` is modelled without the `|| 0`, because a loaded lesson's count is always a number.
- Text.TrimSpec: white space is the ECMAScript WhiteSpace and LineTerminator set, written out code point by code point. No Unicode database is consulted.
- Text.NatToString: renders only the non-negative integers that `lessonIndex` and the word index can take.
