# Spell-check core, modelled in Dafny

This project models the logic inside a React/Firebase spell-checking web app:

- **The check** (`handleCheck`). The input text is split on single whitespace characters. A piece that is a single ASCII space is kept. Any other piece is cut into word runs and punctuation runs, or is its own single part when it has no run. A punctuation run and a lone `'` are kept as they are. Any other part has its leading and trailing ASCII apostrophes trimmed. If nothing is left, the part is marked without asking `correct`; its suggestions still come from `suggest`. Otherwise the trimmed word is put to the dictionary, and a rejected part is written back as a `[part→s1|s2]` or `[part→?]` marker. The fragments are joined into the corrected text. `without_errors` compares the input and the corrected text with all whitespace removed. The saved document keeps the fragments only when the check was not clean.
- **Sharing** (`getExpirationDate`, `handleShare`). The expiry option, the update written to the check's document, and the link `origin/view_check?id=…`.
- **Expiry buckets** (`getExpiringChecks`). Two queries over the `checks` collection: the shared checks, and the shared checks expiring within a week. A loop pushes each check of the second query into the hour, day or week list, and `totalShared` counts the first query.
- **The shared-link page** (`ViewCheck`). What `fetchCheck` decides for an id and the document read for it, the remaining-time text, the heading over each error, and the text the copy button copies.
- **The longest error-free check**. The error-free checks, reduced to the one with the longest original text; a later check wins a tie.

The dictionary is a pair of total functions, `correct` and `suggest`, about which nothing is assumed. Times are integer milliseconds since the epoch. The clock is a parameter `now`. Store reads are parameters: the collection as a sequence, or the outcome of a document read. The bucketing loop is a `method` with a `while` loop and three `seq` accumulators, proved against the selection function `Select`. `getExpirationDate`, which sets fields of a `Date`, and `fetchCheck`, a sequence of React state setters, are modelled as pure functions of their inputs: the step an option selects, and the page state the setters leave. The rest is pure code and is modelled as functions and lemmas.

Files: `wrappers.dfy` (Option), `text.dfy` (join, split, number text), `records.dfy` (the stored record), `tokenize.dfy` (`split(/(\s)/)` and the run pattern), `annotation.dfy` (the check and the saved document), `annotation_examples.dfy` (concrete runs), `sharing.dfy`, `expiring.dfy`, `view_check.dfy`, `longest.dfy`, `lifecycle.dfy` (how these fit together over a check's life).

Behaviour of the code worth knowing:

- Characters of neither class are dropped from a piece that has at least one run, so the corrected text does not always rebuild the input.
- `without_errors` is not "no part was marked":
  - with no part marked, a dropped character makes it false (`DroppedCharSpoilsCheck`);
  - a marker can rebuild the input and leave it true (`FlaggedYetWithoutErrors`).
  - When no character is dropped, it does mean "no part was marked" (`WithoutErrorsIffNoFlag`).
- A lone ASCII apostrophe is a word run that the code lets through by an explicit test. `''` is marked, because its trimmed word is empty.
- The empty piece is always marked. It occurs between two whitespace characters (`EmptyPieceIsMarked`), and at the start or end of a text that starts or ends with whitespace (`LeadingWhitespaceIsMarked`, `TrailingWhitespaceIsMarked`). So a text ending in whitespace whose pieces lose no character, such as "Hello world\n", is never clean (`TrailingWhitespaceNeverClean`, `TrailingNewlineNeverClean`). Only the ASCII space is passed through; a newline is put to the dictionary (`NewlineGoesToOracle`).
- A marker reads back into its part and suggestions when all of these hold (`MarkerRoundTrip`):
  - the part holds no arrow;
  - no suggestion holds a `|`;
  - the list is not the single suggestion `?`.
  - None of the three can be dropped: `ArrowInPartMisread`, `BarSuggestionSplits` and `QuestionSuggestionReadsAsNone` each show a marker that reads back wrongly when one of them fails.
- The buckets keep the order of the query result. The code sorts nothing.

## Model

| member | source | states |
|---|---|---|
| Tokenize.IsSpace | src/pages/index.tsx:101 | Definition of `\s`: ECMAScript white space and line terminators; used by `SegmentsSpec` and `RemoveSpaces` |
| Tokenize.IsWordChar | src/pages/index.tsx:110 | Definition of the word class; `ClassOf` states it is disjoint from the punctuation class |
| Tokenize.IsPunctChar | src/pages/index.tsx:110 | Definition of the punctuation class; `ClassOf` states it is disjoint from the word class |
| Tokenize.ClassOf | src/pages/index.tsx:110 | The word class (`\w` in ASCII, the apostrophe marks, the listed Cyrillic letters) and the punctuation class are disjoint; a character is in its class iff the class predicate holds |
| Tokenize.Segments | src/pages/index.tsx:101 | Definition of `split(/(\s)/)`; its properties are stated by `SegmentsSpec` and `SplitIsUnique` |
| Tokenize.SegmentsEndInSpace | src/pages/index.tsx:101 | A text ending in whitespace splits into the pieces of the rest, the whitespace, and an empty last piece |
| Tokenize.SegmentsStartInSpace | src/pages/index.tsx:101 | A text starting with whitespace splits into an empty first piece, the whitespace, and the pieces of the rest |
| Tokenize.SegmentsSpec | src/pages/index.tsx:101 | `split(/(\s)/)` gives an odd number of pieces that concatenate back to the input; odd pieces are single whitespace characters, even pieces hold no whitespace; there are 2·(whitespace count)+1 pieces |
| Tokenize.SplitIsUnique | src/pages/index.tsx:101 | Any sequence with that shape is exactly `Segments(s)`, so the split is determined by the text |
| Tokenize.RunLength | src/pages/index.tsx:110 | A greedy `[class]+` takes the longest prefix of one class: all taken characters are of the class, and the next one is not |
| Tokenize.GroupsSpec | src/pages/index.tsx:110 | Reference cutting of a text into maximal one-class groups: they concatenate back, each is uniform, neighbours differ in class |
| Tokenize.MatchAll | src/pages/index.tsx:110 | Definition of the global match; its properties are stated by `MatchAllIsMaximalRuns`, `MatchAllRuns`, `MatchAllDropsOthers` and `MatchAllEmptyIff` |
| Tokenize.MatchAllIsMaximalRuns | src/pages/index.tsx:110 | The global match returns exactly the maximal word and punctuation runs in order, skipping characters of neither class |
| Tokenize.MatchAllRuns | src/pages/index.tsx:110 | Every match is a non-empty run of one class, never of the other-class characters |
| Tokenize.MatchAllDropsOthers | src/pages/index.tsx:110 | The matches put together are the text with every character of neither class removed |
| Tokenize.MatchAllEmptyIff | src/pages/index.tsx:110 | There is no match iff no character is of either class |
| Tokenize.Parts | src/pages/index.tsx:110 | Definition of `match(...) \|\| [segment]`; stated by `PartsSpec` |
| Tokenize.PartsSpec | src/pages/index.tsx:110 | `match(...) \|\| [segment]`: a piece with a run is its maximal runs (others dropped); a piece with none is its own single part |
| Annotation.StripLeading | src/pages/index.tsx:119 | Removes exactly the leading ASCII apostrophes: the rest is a suffix and does not start with one |
| Annotation.StripTrailing | src/pages/index.tsx:119 | Removes exactly the trailing ASCII apostrophes: the rest is a prefix and does not end with one |
| Annotation.StripApostrophes | src/pages/index.tsx:119 | Definition of the apostrophe trim; stated by `StripApostrophesSpec` |
| Annotation.IsExempt | src/pages/index.tsx:114-116 | Definition of the parts passed through unchecked; used by `CheckPart`'s contract |
| Annotation.Flagged | src/pages/index.tsx:114-120 | Definition of a marked part: not exempt, and an empty or rejected trimmed word; `CheckPart` states the marker it gets |
| Annotation.StripApostrophesSpec | src/pages/index.tsx:119 | The trimmed word is the part minus an apostrophe run at each end, and neither starts nor ends with an apostrophe |
| Annotation.MarkerTail | src/pages/index.tsx:122-124 | Definition of the text after the arrow; read back by `MarkerTailRoundTrip` |
| Annotation.Marker | src/pages/index.tsx:121-124 | Definition of the marker text; read back by `MarkerRoundTrip`; `MarkerGrows` bounds its length |
| Annotation.ParseMarker | src/pages/index.tsx:121-124 | A reader of the marker format, the partner `MarkerRoundTrip` checks the marker against |
| Annotation.CheckPart | src/pages/index.tsx:112-127 | A punctuation run or a lone `'` comes back untouched; an empty trimmed word is always marked; a non-empty word comes back untouched iff the dictionary accepts it; anything changed is the marker of the unstripped part with the suggestions for the trimmed word |
| Annotation.IndexOf | src/pages/ViewCheck.tsx:33 | Helper of the marker reader `ParseMarker` and of `IdParam`: the first occurrence of a character, or the length when there is none |
| Annotation.MarkerTailRoundTrip | src/pages/index.tsx:122-124 | The text after the arrow reads back as the suggestion list when no suggestion holds `|` and the list is not `["?"]` |
| Annotation.MarkerRoundTrip | src/pages/index.tsx:121-124 | A marker parses back into its part and its exact suggestion list, under those conditions and an arrow-free part |
| Annotation.MarkerReadsTail | src/pages/index.tsx:121-124 | Any arrow-free part followed by the arrow and a tail reads back as that part and the tail split on bars, `?` reading as none |
| Annotation.QuestionSuggestionReadsAsNone | src/pages/index.tsx:122-124 | The single suggestion `?` prints like no suggestion and reads back as none |
| Annotation.BarSuggestionSplits | src/pages/index.tsx:122-123 | A suggestion `b\|c` reads back as the two suggestions `b` and `c` |
| Annotation.ArrowInPartMisread | src/pages/index.tsx:123-124 | A part that is an arrow reads back as the empty part with a wrong suggestion |
| Annotation.RunsHoldNoArrow | src/pages/index.tsx:110 | No run found by the pattern holds the arrow, so a run meets the arrow-free condition of `MarkerRoundTrip` |
| Annotation.CheckParts | src/pages/index.tsx:112-127 | One fragment per part, each the checked part |
| Annotation.CheckSegment | src/pages/index.tsx:103-128 | Definition of one piece's fragment; stated by `SegmentGrows`, `NewlineGoesToOracle` and `WordSegment` |
| Annotation.RemoveSpaces | src/pages/index.tsx:131 | Definition of `replace(/\s/g, '')`; `JoinKeepsVisibleText` and the growth lemmas are stated over it |
| Annotation.Check | src/pages/index.tsx:101-136 | Definition of the whole check; stated by `CheckShape` and `WithoutErrorsIffNoFlag` |
| Annotation.CheckSegments | src/pages/index.tsx:103-128 | One fragment per piece, each the checked piece |
| Annotation.CheckShape | src/pages/index.tsx:101-136 | One fragment per split piece in order; ASCII-space pieces are unchanged; the corrected text is the concatenation; `without_errors` compares the texts without whitespace; the saved fragments are empty when clean, the full list otherwise |
| Annotation.MarkerGrows | src/pages/index.tsx:123-124 | A marker's non-whitespace text is at least three characters longer than the part's |
| Annotation.PartGrows | src/pages/index.tsx:112-127 | Checking a part never shortens its non-whitespace text and lengthens it when the part is marked |
| Annotation.VisibleGrowth | src/pages/index.tsx:127-131 | When each fragment keeps at least the non-whitespace length of its original, and flagged ones exceed it, the joined text does the same, strictly when one is flagged |
| Annotation.PartsGrow | src/pages/index.tsx:112-127 | The same for the parts of a piece |
| Annotation.PartsUnchanged | src/pages/index.tsx:112-127 | When no part is marked, the parts come back as they were |
| Annotation.SegmentGrows | src/pages/index.tsx:103-128 | The same for a piece that drops no character |
| Annotation.SegmentsGrow | src/pages/index.tsx:103-129 | The same for all pieces of the text |
| Annotation.SegmentsUnchanged | src/pages/index.tsx:103-128 | When no piece drops a character and none is marked, the pieces come back as they were |
| Annotation.WithoutErrorsIffNoFlag | src/pages/index.tsx:129-136 | When no piece drops a character: `without_errors` holds iff no part is marked, and then the corrected text is the input and nothing is saved as corrections |
| Annotation.FlaggedPieceSpoilsCheck | src/pages/index.tsx:129-131 | When no piece drops a character, one marked piece makes the check not clean |
| Annotation.WholeSeconds | src/pages/index.tsx:139 | `created_at` is the clock in milliseconds rounded down to a whole second: a multiple of 1000, within the last second |
| Annotation.SavedCheck | src/pages/index.tsx:97-143 | Nothing is saved without a dictionary. Otherwise the document holds the input, the language, `without_errors`, and the fragments only when not clean. It has no expiry, sharing, owner or id. Creation time is the clock rounded down to a whole second. Email and uid default to `unknown`, the name to `Anonymous` |
| AnnotationExamples.WordSegment | src/pages/index.tsx:103-127 | A plain word piece is one part and is kept iff the dictionary accepts it, its marker otherwise |
| AnnotationExamples.TwoSegmentCheck | src/pages/index.tsx:129-131 | Two pieces around one space that drop nothing: clean iff neither is marked |
| AnnotationExamples.TwoWordCheck | src/pages/index.tsx:101-131 | Two plain words around a space are checked separately; the check is clean iff both are accepted |
| AnnotationExamples.TwoWordsAccepted | src/pages/index.tsx:101-136 | Two accepted words: corrected text equals input, clean, nothing saved as corrections |
| AnnotationExamples.TwoWordsRejected | src/pages/index.tsx:101-136 | Two rejected words: two markers around the space, not clean, all fragments saved |
| AnnotationExamples.MisspelledPair | src/pages/index.tsx:101-136 | "Helo wrold" with Helo→Hello,Help and wrold→world gives "[Helo→Hello\|Help] [wrold→world]", not clean |
| AnnotationExamples.CorrectPair | src/pages/index.tsx:101-136 | "Hello world" fully accepted is clean with empty saved corrections |
| AnnotationExamples.DroppedCharSpoilsCheck | src/pages/index.tsx:110-131 | "a#" with `a` accepted: no part is marked, yet the corrected text is "a" and the check is not clean |
| AnnotationExamples.FlaggedYetWithoutErrors | src/pages/index.tsx:110-131 | "[a→#]" with `a` rejected and suggestion "#": a part is marked, yet the marker rebuilds the input and the check is clean |
| AnnotationExamples.EmptyPieceIsMarked | src/pages/index.tsx:101-124 | Two spaces in a row leave an empty piece, and that piece is always a marker |
| AnnotationExamples.TrailingWhitespaceIsMarked | src/pages/index.tsx:101-124 | A text ending in whitespace has an empty last piece, and that piece is always a marker |
| AnnotationExamples.LeadingWhitespaceIsMarked | src/pages/index.tsx:101-124 | A text starting with whitespace has an empty first piece, and that piece is always a marker |
| AnnotationExamples.WhitespacePieceNoDrop | src/pages/index.tsx:110 | A single whitespace piece has no run and is its own one part |
| AnnotationExamples.EmptyPieceFlagged | src/pages/index.tsx:110-120 | The empty piece is its own one part, and that part is marked |
| AnnotationExamples.TrailingWhitespaceNeverClean | src/pages/index.tsx:101-131 | A text ending in whitespace whose pieces lose no character is never clean, for every dictionary |
| AnnotationExamples.TrailingNewlineNeverClean | src/pages/index.tsx:101-131 | Two plain words followed by a newline, such as "Hello world\n", are never clean |
| AnnotationExamples.NewlineGoesToOracle | src/pages/index.tsx:105-124 | A newline piece is put to the dictionary like a word |
| Sharing.ExpirationOffset | src/pages/index.tsx:159-175 | `1h`, `3d`, `7d`, `1m`, `3m` select one hour, three days, seven days, one month, three months; anything else three days |
| Sharing.OptionTableRoundTrip | src/pages/index.tsx:159-175 | Each offered option selects its own step, and an unknown option acts exactly as `3d` |
| Sharing.OffsetsSelectable | src/pages/index.tsx:159-175 | The selectable steps are exactly the five the table names |
| Sharing.ShareLink | src/pages/index.tsx:189-190 | Definition of the link; read back by `ShareLinkRoundTrip` |
| Sharing.IdParam | src/pages/ViewCheck.tsx:33 | Definition of `searchParams.get('id')`, the fragment cut off first; stated by `ShareLinkRoundTrip`, `NoQueryNoId` and `QueryInFragmentIgnored` |
| Sharing.ShareLinkRoundTrip | src/pages/index.tsx:189-190 | The view page's `id` read from `origin/view_check?id=<id>` is the shared id, for an origin without `?` or `#` and an id without `&`, `#`, `%`, `+` |
| Sharing.NoQueryNoId | src/pages/ViewCheck.tsx:33 | A URL without `?` carries no `id` |
| Sharing.QueryInFragmentIgnored | src/pages/ViewCheck.tsx:33 | A `?` after the first `#` is part of the fragment, so `h#/v?id=X` carries no `id` |
| Sharing.HandleShare | src/pages/index.tsx:177-194 | Nothing without a saved check id (empty counts as none). Otherwise one update of that document with the chosen step and `shared: true`. The link is shown iff the update succeeded, and it is the share link for that id |
| Sharing.SharedLinkNamesDocument | src/pages/index.tsx:177-191 | A successful share's link leads the view page to the updated document |
| Sharing.ApplyShare | src/pages/index.tsx:183-186 | The update sets `expire` and `shared: true` together and leaves every other field as it was |
| Sharing.ApplyShareTwice | src/pages/index.tsx:183-186 | A second share only moves the expiry |
| Expiring.Filter | src/firebase/firestore.ts:87-95 | Definition of a `where` query over the collection; stated by `FilterMembers`, `FilterNarrower` and `FilterIsSubsequence` |
| Expiring.SharedQuery | src/firebase/firestore.ts:87 | Definition of the shared query; `GetExpiringChecks` states `totalShared` is its size |
| Expiring.ExpiringQuery | src/firebase/firestore.ts:90-95 | Definition of the expiring query; stated by `ExpiringAllDated` and `BucketsWithinQuery` |
| Expiring.InHorizon | src/firebase/firestore.ts:92-94 | Definition of the expiring query's clauses; `FilterMembers` states the query keeps exactly these checks |
| Expiring.FilterMembers | src/firebase/firestore.ts:87-95 | A query keeps exactly the records that meet its clauses |
| Expiring.FilterNarrower | src/firebase/firestore.ts:87-95 | A stricter query returns no more records |
| Expiring.BucketOf | src/firebase/firestore.ts:102-123 | Hour iff expiry ≤ now+1h; day iff now+1h < expiry ≤ now+1d; week iff later |
| Expiring.BucketMonotone | src/firebase/firestore.ts:117-123 | A later expiry never lands in an earlier bucket |
| Expiring.BucketBoundaries | src/firebase/firestore.ts:102-120 | Exactly one hour from now is in the hour bucket; a second later, the day bucket; likewise at one day |
| Expiring.Select | src/firebase/firestore.ts:113-124 | Definition of a bucket as a selection of the fetch; stated by `SelectMembers`, `BucketsPartition` and `BucketKeepsOrder` |
| Expiring.BucketChecks | src/firebase/firestore.ts:106-124 | The loop's three lists are the selections of the fetched checks for each bucket, in fetch order; checks without expiry are skipped |
| Expiring.GetExpiringChecks | src/firebase/firestore.ts:82-127 | `totalShared` counts the shared query; the buckets come from the expiring query; every bucketed check is in the store, shared, and in its window; the bucket sizes add up to the expiring query's size and stay ≤ `totalShared` |
| Expiring.SelectMembers | src/firebase/firestore.ts:113-124 | A check is in a bucket iff it was fetched, has an expiry and that expiry selects the bucket |
| Expiring.ExactlyOneBucket | src/firebase/firestore.ts:113-124 | A fetched check with an expiry is in its own bucket and in no other; one without is in none |
| Expiring.BucketsDisjoint | src/firebase/firestore.ts:113-124 | The three buckets are pairwise disjoint |
| Expiring.BucketsPartition | src/firebase/firestore.ts:113-124 | The buckets together hold every dated fetched check exactly as often as the fetch does (multisets and sizes) |
| Expiring.ExpiringAllDated | src/firebase/firestore.ts:90-115 | Every check of the expiring query has an expiry, so the loop skips none |
| Expiring.BucketsWithinQuery | src/firebase/firestore.ts:84-123 | Hour checks expire in [now, now+1h], day checks in (now+1h, now+1d], week checks in (now+1d, now+7d]; all are shared |
| Expiring.OutsideHorizonInNoBucket | src/firebase/firestore.ts:90-95 | An already-expired check, one expiring after a week, or one without expiry is in no bucket |
| Expiring.BucketsBelowShared | src/firebase/firestore.ts:87-110 | The bucket sizes add up to at most `totalShared` |
| Expiring.FilterIsSubsequence | src/firebase/firestore.ts:87-95 | A query result is a subsequence of the collection |
| Expiring.BucketKeepsOrder | src/firebase/firestore.ts:113-124 | Each bucket is a subsequence of the fetch: relative order is kept |
| Expiring.SortedBucketsConcat | src/firebase/firestore.ts:113-124 | A fetch sorted by expiry is exactly hour ++ day ++ week |
| Expiring.ThreeExpiringTwoOpen | src/firebase/firestore.ts:82-127 | Five shared checks expiring in 30 min, 5 h, 3 d, and two without expiry: one check per bucket, `totalShared` is 5 |
| ViewCheck.RemainingOf | src/pages/ViewCheck.tsx:78-89 | Days and leftover hours (≤ 23) from one day on; whole hours (1..23) from one hour on; whole minutes (≤ 59) below; each figure is the remaining time rounded down to its unit |
| ViewCheck.ShowRemaining | src/pages/ViewCheck.tsx:82-89 | Definition of the three templates; read back by `ReadShowRemaining` |
| ViewCheck.RemainingTime | src/pages/ViewCheck.tsx:78-89 | Definition of the shown remaining time; stated by `RemainingOf` and `RemainingTimeReadsBack` |
| ViewCheck.ReadShowRemaining | src/pages/ViewCheck.tsx:82-89 | Each of the three templates reads back into exactly the figures it shows |
| ViewCheck.RemainingTimeReadsBack | src/pages/ViewCheck.tsx:78-89 | The shown text for a remaining time reads back as its rounded-down figures |
| ViewCheck.FetchCheck | src/pages/ViewCheck.tsx:50-99 | Errors in order: no (or empty) id, no document, failed read, expiry before now; no other error text occurs. There is no error, and the check is shown, exactly when there is an id, the document exists and it has not expired. The shown check carries the document's id. Remaining time is shown iff it has an expiry, computed from expiry − now ≥ 0; an expiry equal to now is not expired |
| ViewCheck.ErrorHeading | src/pages/ViewCheck.tsx:117-123 | Definition of the heading ternary; stated by `OutcomeHeading` |
| ViewCheck.ErrorDescription | src/pages/ViewCheck.tsx:126-132 | Definition of the sentence ternary; stated by `OutcomeDescription` |
| ViewCheck.OutcomeHeading | src/pages/ViewCheck.tsx:117-123 | No id heads "Invalid Link"; missing document "Spell Check Not Found"; failed read "Error Loading Check"; expired "Shared Check Has Expired" |
| ViewCheck.OutcomeDescription | src/pages/ViewCheck.tsx:126-132 | Each failure gets its own sentence under the heading: invalid link, missing check, loading problem, expired check |
| ViewCheck.CopyText | src/pages/ViewCheck.tsx:38-40 | Definition of the copied text; stated by `CopyOfSavedCheck` |
| ViewCheck.JoinKeepsVisibleText | src/pages/ViewCheck.tsx:38-39 | Joining with spaces adds only whitespace |
| ViewCheck.CopyOfSavedCheck | src/pages/ViewCheck.tsx:38-40 | A clean saved check copies the empty string. Otherwise the copied text has the same non-whitespace text as the corrected text and is longer by two per whitespace character of the input |
| LongestErrorFree.Utf16Length | src/pages/LongestErrorFreeCheck.tsx:28 | `length` counts UTF-16 units: between one and two per character, exactly one each inside the Basic Multilingual Plane |
| LongestErrorFree.ErrorFree | src/pages/LongestErrorFreeCheck.tsx:24 | Definition of the filter; stated by `ErrorFreeMembers` and `ErrorFreeAppend` |
| LongestErrorFree.Reduce | src/pages/LongestErrorFreeCheck.tsx:27-31 | Definition of the reduce; stated by `ReduceIsLastLongest` and `ReduceHasMaxLen` |
| LongestErrorFree.Longest | src/pages/LongestErrorFreeCheck.tsx:24-31 | Definition of the page's result; stated by `LongestAbsentIff`, `LongestIsLongestErrorFree` and `ErroneousCheckIgnored` |
| LongestErrorFree.ErrorFreeMembers | src/pages/LongestErrorFreeCheck.tsx:24 | The filter keeps exactly the checks with `without_errors` |
| LongestErrorFree.ErrorFreeAppend | src/pages/LongestErrorFreeCheck.tsx:24 | Filtering distributes over concatenation |
| LongestErrorFree.ReduceIsLastLongest | src/pages/LongestErrorFreeCheck.tsx:27-31 | The reduce returns an element that no other outlasts and every later element is strictly shorter than: the last of maximal length |
| LongestErrorFree.ReduceHasMaxLen | src/pages/LongestErrorFreeCheck.tsx:27-31 | The reduce's length is the maximum length |
| LongestErrorFree.LongestAbsentIff | src/pages/LongestErrorFreeCheck.tsx:24-26 | No result iff no check is error-free |
| LongestErrorFree.LongestIsLongestErrorFree | src/pages/LongestErrorFreeCheck.tsx:24-32 | The result is an error-free input check, of maximal length among error-free checks, and the last such one |
| LongestErrorFree.ErroneousCheckIgnored | src/pages/LongestErrorFreeCheck.tsx:24 | Inserting a check with errors anywhere leaves the result unchanged |
| LongestErrorFree.FetchLongest | src/pages/LongestErrorFreeCheck.tsx:21-39 | On success, the longest error-free check and no error. On failure, no check and the message "Failed to load longest error-free check: " followed by the error's message, or "Unknown error" when that is missing or empty |
| Lifecycle.SavedCheckIsUnshared | src/pages/index.tsx:134-143 | A freshly saved check is in neither query |
| Lifecycle.SharedCheckInHorizon | src/pages/index.tsx:183-186 | After a share the check is shared, and in the expiring query iff its expiry is within the coming week |
| Lifecycle.ShareThenView | src/pages/ViewCheck.tsx:52-92 | Opening a share link shows the shared check with its remaining time until the expiry passes, and says it expired afterwards |
| Lifecycle.BucketedChecksAreViewable | src/firebase/firestore.ts:90-95 | No check in a bucket has expired, so each bucketed check can still be opened |
| Text.SplitJoin | src/pages/index.tsx:123 | Splitting a `join` on its separator gives the strings back when none contains it |
| Text.JoinLength | src/pages/ViewCheck.tsx:39 | A join is as long as its strings plus one separator per neighbouring pair |
| Text.NatToString | src/pages/ViewCheck.tsx:83-88 | The number in a template string is non-empty decimal digits without a leading zero |
| Text.ParseNatToString | src/pages/ViewCheck.tsx:83-88 | That decimal text reads back as the number |

## Left out

- Rendering, React state and hooks, MUI, i18n, routing, the clipboard and `window.location`. The origin is a parameter.
- Firestore I/O. `addDoc`, `updateDoc`, `getDoc` and `getDocs` become parameters: the collection as a sequence, or a document read outcome. The two parallel reads in `getExpiringChecks` are one snapshot, and the query result order is taken as the order of that sequence. The code itself sorts nothing. If the store returns the range query ordered by `expire`, `SortedBucketsConcat` is the lemma that then applies.
- The NSpell dictionary and its loading. The oracle is uninterpreted.
- Sharing.ExpirationOffset: selects only the calendar step. Adding it to a local-time JavaScript `Date` (month lengths, daylight saving) is not modelled, so `ApplyShare` takes the resulting time as a parameter.
- Sharing.IdParam: percent-decoding and `+` handling of query values are not modelled. The round trip requires ids without `%` and `+`.
- ViewCheck.FetchCheck: uses one `now` for both clock readings of `fetchCheck` (src/pages/ViewCheck.tsx:71 and :78). The code's second reading can come later than the first. With an expiry equal to the first reading, the remaining time is then negative and the page can show "-1 minutes". The model cannot produce that text: its remaining time is never below zero.
- Annotation.SavedCheck: does not model whether `addDoc` fails. On failure the check id used for sharing stays as it was; `HandleShare` takes that id as a parameter.
- Timestamp precision. Firestore timestamps and `Date` values are integer milliseconds throughout.
- `getAllChecks`, which merges the document id into the data. The longest-check page takes the checks as given.
- The random picks of the random-check pages, the statistics gauges, the checks table and the authentication wrappers carry no logic of the core.
