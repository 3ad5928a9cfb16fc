# Reading-time estimator, modelled in Dafny

The application estimates how long a pasted text takes to read. It trims the
text and refuses it when nothing is left. Otherwise it cuts out the fenced
code blocks (regions between two occurrences of three backticks, matched
lazily and possibly inline, in the middle of a line), counts the words
of the remaining prose and of the code, and converts the counts into seconds:
200 words a minute for prose, 100 for code, and 12 seconds per image. The
total is rounded up to whole minutes.

`js/app.js` is one file of nested functions; the model is split into these modules:

- `Text`: the whitespace and word-character classes, `trim()` and `join()`.
- `Words`: `countWords`. Its reference meaning is `Runs`, the number of
  maximal runs of non-whitespace characters.
- `Fences`: `extractCodeBlocks` and its parts.
  - One `codeBlockRegex.exec` is the function `NextMatch`, and the
    hand-written scanner `Exec` is proved equal to it.
  - The global search is `Regions` and the replacement of each region by one space is `Replaced`.
  - Stripping the fences, the tag and the newlines is `BlockContent`.
  - The `while` loop over `exec` is the method `ExtractCodeBlocks`.
- `Estimator`: `CONFIG`, the arithmetic of `calculateReadingTime` (`Estimate`)
  and the handler (`CalculateReadingTime`).
- `Examples`: worked cases.

Times are exact rationals, not JavaScript doubles. One word and five images
take 2 minutes, not 1: the word adds 0.3 seconds to the 60 seconds of the
images, and 60.3 seconds round up to two minutes (`Examples.OneWordFiveImages`).

## Model

| member | source | states |
|---|---|---|
| Text.IsSpace | js/app.js:19 | the whitespace of `trim()` and `\s`, restricted to ASCII: space, tab, line feed, vertical tab, form feed and carriage return |
| Text.IsWordChar | js/app.js:68 | the class `\w`: an ASCII letter, digit or underscore |
| Text.Join | js/app.js:78 | `join(sep)`: the parts in order with the separator between neighbours; its meaning for the estimate is carried by `Words.CountWordsOfJoin` and `Fences.ProseIsGapsJoined` |
| Text.Trim | js/app.js:19 | the result neither starts nor ends with whitespace, and it is empty exactly when the text is all whitespace |
| Text.TrimParts | js/app.js:19 | the text is a whitespace prefix, the trimmed text and a whitespace suffix, in that order |
| Words.Split | js/app.js:86 | `split(/\s+/)` yields at least one piece; `Words.SplitPiecesHaveNoSpaces` proves that no piece holds whitespace, and `Words.SplitTrimmed` that on trimmed non-empty text every piece is non-empty and there are as many pieces as maximal non-whitespace runs |
| Words.SplitPiecesHaveNoSpaces | js/app.js:86 | no piece of `split(/\s+/)` holds whitespace |
| Words.SplitTrimmed | js/app.js:86 | splitting a trimmed non-empty text gives only non-empty pieces, one per maximal non-whitespace run |
| Words.NonEmpty | js/app.js:86 | the filter keeps exactly the non-empty pieces: the kept pieces, counted with multiplicity, are those of the input less every empty one, and nothing is dropped when no piece is empty |
| Words.CountWords | js/app.js:83-87 | `countWords`; its meaning is carried by `Words.CountWordsIsRuns` (the number of maximal non-whitespace runs) and `Words.CountWordsZeroIff` |
| Words.CountWordsIsRuns | js/app.js:83-87 | `countWords` equals the number of maximal non-whitespace runs, so no empty word is ever counted |
| Words.CountWordsZeroIff | js/app.js:84 | `countWords` is 0 exactly when the text is empty or all whitespace |
| Words.RunsAppend | js/app.js:86 | words do not merge across a boundary with whitespace on one side, so the count of the join is the sum |
| Words.CountWordsOfJoin | js/app.js:78 | counting the words of the blocks joined by one space gives the sum of the counts of the blocks |
| Fences.FindFence | js/app.js:61 | the result is the first position at or after the start that holds three backticks, or none if there is no such position |
| Fences.NextMatch | js/app.js:61-65 | one `exec` from `lastIndex`: a found region lies at or after `lastIndex` and within the text, is at least six characters long, and starts and ends with a fence; the full meaning is carried by `Fences.NextMatchSpec` |
| Fences.NextMatchSpec | js/app.js:61 | one `exec` finds a region exactly when one can be matched; that region opens at the leftmost fence and closes at the first fence after the opening one ends |
| Fences.Exec | js/app.js:65 | the scanner's result for one `exec` call from `lastIndex` is the specified match |
| Fences.Regions | js/app.js:65-71 | the regions the `exec` loop visits, in order; their meaning is carried by `Fences.RegionsAreLeftmostChain` |
| Fences.RegionsAreLeftmostChain | js/app.js:65-71 | the regions the loop finds are closed, do not overlap, and are each the leftmost after the previous one; none are found exactly when none can be matched; the search stops only when nothing can be matched after the last region |
| Fences.Codes | js/app.js:66-70 | one block content per region, in order, each the stripped text of its region |
| Fences.WordRunLength | js/app.js:68 | the length of the longest run of word characters at the start of the text (the `\w*`) |
| Fences.StripOpening | js/app.js:68 | `replace(/^```\w*\n?/, '')`; its meaning is carried by `Fences.StripOpeningFenced` |
| Fences.StripClosing | js/app.js:69 | `replace(/\n?```$/, '')`; its meaning is carried by `Fences.StripClosingFenced` |
| Fences.BlockContent | js/app.js:67-69 | the two replacements in order; their result is characterised by `Fences.BlockContentIsSlice`, `Fences.BlockShape` and `Fences.TaggedBlock` |
| Fences.StripOpeningFenced | js/app.js:68 | `^```\w*\n?` removes the fence, the longest word run and one newline after it |
| Fences.StripClosingFenced | js/app.js:69 | `\n?```$` removes the closing fence and one newline before it |
| Fences.BlockContentIsSlice | js/app.js:67-69 | the content of a block is the slice of its inner text that the two patterns leave |
| Fences.BlockShape | js/app.js:67-69 | the inner text is a word-character tag, an optional newline, the content and an optional newline; the tag is maximal, and each newline is present exactly when the text has one there |
| Fences.TaggedBlock | js/app.js:67-69 | a block of the form fence, tag, newline, code, newline, fence has exactly the code as content |
| Fences.Replaced | js/app.js:74 | `content.replace(codeBlockRegex, ' ')`; its meaning is carried by `Fences.ProseIsGapsJoined`, `Fences.ReplacedKeepsTail` and `Fences.ReplacedHasNoMatch` |
| Fences.Extract | js/app.js:60-81 | the value `extractCodeBlocks` returns; it is the specification `Fences.ExtractCodeBlocks` is proved against, and its properties are the `Fences` lemmas in this table |
| Fences.NoRegionKeepsText | js/app.js:74-79 | with no complete region there are no blocks, and the prose is the text unchanged |
| Fences.UnclosedFenceStaysProse | js/app.js:61-74 | a fence that no region covers and that has no fence after it: every region ends before it, and the prose ends with the text from that fence on, verbatim |
| Fences.ReplacedKeepsTail | js/app.js:74 | the text after the last region ends the prose unchanged |
| Fences.ProseIsGapsJoined | js/app.js:74 | the replacement and the `exec` loop see the same regions: the prose is the text around those regions, in order and unchanged, with exactly one space in place of each region |
| Fences.LoopStep | js/app.js:65-71 | one turn of the loop takes the next region of the global search and appends that region's content as the next block |
| Fences.ReplacedHasNoMatch | js/app.js:74 | replacing each region by one space leaves no complete region in the prose |
| Fences.ExtractIdempotent | js/app.js:60-81 | extracting again from the prose finds no block and returns the prose unchanged |
| Fences.SingleBlock | js/app.js:60-81 | a backtick-free block between backtick-free texts is the only region: one block, its stripped content, and the two texts joined by one space as prose |
| Fences.LoneFence | js/app.js:60-81 | a single fence in backtick-free text gives no block and the text as prose |
| Fences.ExtractCodeBlocks | js/app.js:60-81 | the loop's result is the specified extraction: the prose with each region replaced by one space, the block contents joined by one space, and the number of regions |
| Estimator.RegularWpm | js/app.js:4 | 200 regular words a minute |
| Estimator.CodeWpm | js/app.js:5 | 100 code words a minute |
| Estimator.SecondsPerImage | js/app.js:6 | 12 seconds per image |
| Estimator.EmptyContentMessage | js/app.js:28 | the fixed message for blank content |
| Estimator.ImageCount | js/app.js:20 | the parsed field, with 0 in place of a falsy number: the count is 0 exactly when the field parsed to NaN or to 0, and otherwise it is the parsed number, negative ones included |
| Estimator.TotalSeconds | js/app.js:41-44 | under the configured rates the seconds are (3r + 6c + 120i) / 10 for r regular words, c code words and i images |
| Estimator.Ceil | js/app.js:47 | `Math.ceil`: the least integer not below its argument |
| Estimator.TotalMinutes | js/app.js:41-47 | the minutes are the least whole number of minutes that covers the reading time in seconds |
| Estimator.Estimate | js/app.js:18-47 | an error with the fixed message exactly when the text is empty after trimming; otherwise the total word count is the sum of the regular and code counts |
| Estimator.MinutesFormula | js/app.js:41-47 | under the rates of `CONFIG` (js/app.js:3-7) the minutes of lines 41-47 are ceil((3r + 6c + 120i) / 600) for r prose words, c code words and i images |
| Estimator.MinutesZeroIff | js/app.js:41-47 | with no negative image count, the estimate is 0 minutes exactly when there are no words and no images |
| Estimator.MinutesMonotone | js/app.js:41-47 | more words or more images never shorten the estimate |
| Estimator.EstimateFigures | js/app.js:33-47 | for non-blank text: the prose count is the number of word runs of the prose, the code count is the sum over the blocks, the block count is the number of regions, and the minutes follow the formula |
| Estimator.CalculateReadingTime | js/app.js:18-57 | the handler's result is the specified estimate |
| Examples.MixedWhitespace | js/app.js:83-87 | "a  b\tc\nd" has 4 words |
| Examples.BlankTexts | js/app.js:84 | "" and "   " have no words |
| Examples.OneTaggedBlock | js/app.js:60-81 | "before ```js\nconst x = 1;\n``` after" gives one block "const x = 1;" and the prose "before   after" |
| Examples.UnterminatedFence | js/app.js:60-81 | "text ``` no close" gives no block, and the prose is the text unchanged |
| Examples.EmptyContentRefused | js/app.js:27-30 | "" and "   " are refused with the fixed message |
| Examples.TwoHundredWords | js/app.js:41-47 | 200 prose words take exactly one minute |
| Examples.OneWordFiveImages | js/app.js:41-47 | "x" with five images is one word and takes 2 minutes |

## Left out

- The DOM wiring is not modelled: element lookup, the click listener, hiding and showing panels, `showError`, and `displayResults` with its "1 minute"/"n minutes" wording. It is display glue.
- Floating point is not modelled. Times are exact rationals, so a JavaScript double that rounds just over a whole minute could give one minute more than the model.
- `parseInt` is not modelled. Its result comes in as `Option<int>`, with `None` standing for NaN; `|| 0` turns NaN and 0 into 0 and keeps negative counts.
- Words.CountWords: the `!text` guard for `null` or `undefined` is not modelled; both callers always pass a string.
- Text.IsSpace: only ASCII whitespace is modelled (space, tab, line feed, vertical tab, form feed, carriage return). `trim()` and `\s` also accept Unicode spaces.
- The regular-expression engine is not modelled. Each pattern is modelled by the matching it performs (`NextMatch`, `StripOpening`, `StripClosing`).
- `String.prototype.replace` and `Array.prototype.join` are built-ins, so they are functions (`Replaced`, `Join`), not loops.
