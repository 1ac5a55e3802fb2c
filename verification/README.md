# Verification of OmniScribe's alignment, job queues, scoring, rate limiter and JSON extraction

This project models five parts of OmniScribe in Dafny and proves properties of the models.

- **Line-to-box aligner** (`LineBoxAlignment`, `DpAligner`, `ReadingOrder`, `AlignText`, with `Boxes`,
  `Options`, `StableSorting`, `TextLines`). The dynamic program is proved optimal over every monotone alignment, its
  back-pointers and replay are proved to keep all text in order and to put each line at its match, the recursive
  reading order is proved a permutation that reads whole columns left to right and each top to bottom, and the result
  of binding text to boxes is stated for each path.
- **Distributed job queue** (`LeaseScripts`, `LeaseRuns`, `WatchFallback`, `LeaseTiming`, `LeaseRenewal`,
  `JobRecords`). The
  Lua scripts are methods over mutable keys proved against their effects. Runs interleave the scripts of any
  number of clients with arbitrary writes to job records. The WATCH/MULTI/EXEC fallbacks are proved to refine
  the scripts. A claim brings a fresh owner, and job ids are fresh.
- **Scoring** (`EditDistance`, `BlockMatching`). The two-row loop is proved against the textbook recursion,
  which is proved to be the price of the cheapest edit script and a metric. Greedy matching is proved never to
  reuse a block, to leave no better block free, and to reach at least half of the best possible pairing.
- **Rate limiter** (`RateLimiter`). The pruned queues are proved to decide as a limiter with the whole history,
  kept as a ghost field. Calls are sequential and their times do not go back.
- **In-process queue and JSON extraction** (`LocalQueue`, `StateBackend`, `InterruptedSweep`; `JsonDecoder`,
  `JsonTexts`, `JsonSpans`, `ExtractJson`). Cancellation is a state machine over the await points. The sweep is proved
  to visit every row once while it rewrites rows. The bracket scan is proved against a decoder, and the decoder is
  proved to read exactly the texts of the grammar (sections 2 to 7 of RFC 8259) and to undo a writer.

Some lemmas and methods take a function as a ghost parameter (`split`, `result`, `progress`, `at`, `decode`) where
the code has a fixed routine. The proof then holds for every routine with the stated property, and the main members
apply it to the real one.

`dafny verify dfyconfig.toml` checks everything.

## Where the code does less than it says

Each of these is a property of the design or the documentation that the code does not have, with the exact condition
under which it does.

- **JSON scan** (src/omniscribe/utils/json_parse.py:15-17, 30-31). An open bracket right after a backslash inside a
  string state is skipped without setting `dirty`. So a clean scan can miss a value that the slow loop would find:
  `EscapedBracketIsMissed`. On a clean scan the two agree exactly as `CleanSearchFindsFirst` says; a caller can
  check beforehand that no open bracket follows a backslash (`SearchIsSlow`).
- **RecursionError** (src/omniscribe/utils/json_parse.py:57, 70, 90). Two of the three decodes catch it; the slow loop
  does not, and the caller gets it. `ErrorExactly` says when, `RecursionErrorEscapes` gives a text for every limit.
- **Lease renewal** (src/omniscribe/worker.py:454-459, src/omniscribe/plugins/jobs_redis.py:870-894). The loop survives
  exceptions, but `renew_lease` never raises: it turns a connection error into `False`, on which the loop ends
  (`RenewNeverRaises`, `FirstFailureEndsIt`). After a failed call the job is therefore safe exactly if it is given up
  less than a timeout after the turn before (`FailedCallKeepsJob`); `OneLostTurn` is a run in which it is taken. Failures
  that reached the loop as exceptions would be tolerated, one at a time, exactly for timeouts of at least 0.15 seconds
  (`CalmLoopKeepsJob`, `ToleranceNeedsTimeout`). "Safe" and "tolerated" mean: in every run of the queue
  (`KeptExactlyWhenClose`).
- **One tuple per box** (src/omniscribe/core/aligner.py:307). Not so for text without boxes and for a single line over
  five boxes or more, and so on all other pages (`Align`). The zero-match fallback at line 365 is unreachable
  (`AlwaysMatches`).
- **Column gap** (src/omniscribe/core/aligner.py:419-420, 432-433). The comments speak of a gap above the threshold. The
  code agrees exactly on pages whose widest gap is not the threshold itself with two boxes on each side
  (`DocumentedBreak`); such a page it splits as well (`SplitAtTheThreshold`).
- **Error rate** (src/omniscribe/confidence_eval.py:349). The documented quotient differs from the code exactly for an
  empty reference and a hypothesis of two items or more (`DocumentedRate`).
- **Recall** (src/omniscribe/confidence_eval.py:98-103). With a threshold that is not positive, lines without a pair
  count as matched (`MatchedMeansPaired`, `RecallWithoutAnyPair`).
- **Late cancel** (src/omniscribe/plugins/jobs.py:405-423). `cancel` answers true whenever it recorded the request, yet
  the job can still end complete: exactly if the worker is storing the result, re-reading the record or about to write
  `complete` at that moment, or the record is complete already (`RecordedCancelIsTooLate`, with the run
  `LateCancelIsTooLate`). A cancel recorded before the runner returned always wins (`RecordedCancelWins`).

## Model

| member | source | states |
|---|---|---|
| `LineBoxAlignment.MatchCostRange` | src/omniscribe/core/aligner.py:517-554 | A match costs at least 0 and less than 1, under 0.5 when the line fits, and 0 exactly when line and expectation agree once both are raised to 1 |
| `LineBoxAlignment.MatchCostExact` | src/omniscribe/core/aligner.py:548-554 | The cost of a match is the excess over the greater number when the line is too long, and half the shortfall over the greater number when it is not |
| `LineBoxAlignment.CapacityIsArea` | src/omniscribe/core/aligner.py:511-513 | A box with an area of a millionth or more has its area as capacity, whichever way round its corners are given |
| `LineBoxAlignment.CapacityFloor` | src/omniscribe/core/aligner.py:513 | No capacity is below a millionth, and a box without area has just that |
| `LineBoxAlignment.ExpectedByCapacity` | src/omniscribe/core/aligner.py:581-584 | Any two boxes are expected to hold characters in the ratio of their capacities |
| `LineBoxAlignment.ExpectedAddsUp` | src/omniscribe/core/aligner.py:581-584 | The characters the boxes are expected to hold add up to all characters |
| `LineBoxAlignment.CostOfUnmatched` | src/omniscribe/core/aligner.py:499-500 | Whatever the alignment, its cost is that of its matches, plus 1 for every line and 0.4 for every box without a match |
| `LineBoxAlignment.PageOf` | src/omniscribe/core/aligner.py:503-514 | Every cell of the cost grid is the match cost of that line against that box's share, by area, of all characters |
| `LineBoxAlignment.BestStep` | src/omniscribe/core/aligner.py:601-618 | The value of every corner is the value of the corner its back-pointer leads to plus the cost of that operation |
| `LineBoxAlignment.TieRule` | src/omniscribe/core/aligner.py:611-618 | A match is picked exactly when it is among the cheapest last steps; a skipped line exactly when it is and a match is not |
| `LineBoxAlignment.BestOpsAlign` | src/omniscribe/core/aligner.py:620-640 | The operations the back-pointers spell out are a monotone alignment of all lines and boxes, and their summed cost is exactly the table's value |
| `LineBoxAlignment.BestIsLowerBound` | src/omniscribe/core/aligner.py:586-618 | No sequence of matches and skips whatsoever that uses up the same lines and boxes costs less than the table says |
| `LineBoxAlignment.SkipPairIsWasteful` | src/omniscribe/core/aligner.py:499-500 | Any alignment with a skipped line beside a skipped box becomes strictly cheaper when the pair is turned into a match |
| `LineBoxAlignment.NoAdjacentSkips` | src/omniscribe/core/aligner.py:557-640 | In the chosen alignment no skipped line stands beside a skipped box |
| `LineBoxAlignment.MatchlessHasSkipPair` | src/omniscribe/core/aligner.py:499-500 | Operations without a match that use a line and a box must hold a skipped line beside a skipped box |
| `LineBoxAlignment.AlwaysMatches` | src/omniscribe/core/aligner.py:365 | With at least one line and one box the chosen alignment holds a match, so the zero-match case cannot arise |
| `LineBoxAlignment.ChosenIsCheapest` | src/omniscribe/core/aligner.py:557-640 | The alignment taken for a page is one, costs what the table says, and no other alignment of the page costs less |
| `LineBoxAlignment.ChosenShape` | src/omniscribe/core/aligner.py:557-640 | With a line and a box it holds a match and never a skipped line beside a skipped box |
| `DpAligner.FillBorder` | src/omniscribe/core/aligner.py:586-598 | After the border loops the first row and column hold optimal values and pointers |
| `DpAligner.FillCell` | src/omniscribe/core/aligner.py:605-618 | Filling one cell from its three neighbours extends the optimal part of both tables by that cell and spoils no other |
| `DpAligner.FillTable` | src/omniscribe/core/aligner.py:579-618 | All cells of both tables hold the optimal cost and the tie-breaking last operation |
| `DpAligner.Backtrack` | src/omniscribe/core/aligner.py:620-640 | The loop returns the chosen operations in order, with their line and box numbers; its safety branch is never entered |
| `DpAligner.Replay` | src/omniscribe/core/aligner.py:642-657 | The loop computes the placement that `PlaceSharesOut` and `NothingLostOrReordered` characterise: each matched line at its box, each skipped line at the latest matched box, or at the first |
| `DpAligner.PlaceInvariant` | src/omniscribe/core/aligner.py:642-655 | After any prefix of any alignment the texts gathered in box order are exactly the lines used so far |
| `DpAligner.NothingLostOrReordered` | src/omniscribe/core/aligner.py:572-573 | For every alignment, reading the boxes in order gives back exactly the input lines in order |
| `DpAligner.PlaceSharesOut` | src/omniscribe/core/aligner.py:572-573 | For every alignment, each box gets exactly the lines from its own match up to the match of a later box; the first box gets the lines before any match too, and a box without a match gets none |
| `DpAligner.LineBetweenStarts` | src/omniscribe/core/aligner.py:642-655 | A matched line lies in the range of its box, and a skipped line in that of the latest match before it, or of the first box |
| `DpAligner.SharedOutGoHome` | src/omniscribe/core/aligner.py:642-655 | So every line is found among the texts of the box it was matched to, or that the latest match before it went to |
| `DpAligner.DpAlign` | src/omniscribe/core/aligner.py:557-657 | The returned cost is the minimum over all monotone alignments; every box has exactly the lines from its match up to the next match, so each line is in the box it was matched to or that of the latest match before it; no line is lost or reordered, and at least one is matched |
| `ReadingOrder.WidestGapIsWidest` | src/omniscribe/core/aligner.py:448-454 | The gap found is the first widest positive gap between consecutive centres, or none exists |
| `ReadingOrder.FindWidestGap` | src/omniscribe/core/aligner.py:448-454 | The loop finds that gap |
| `ReadingOrder.ColumnsOfIsGood` | src/omniscribe/core/aligner.py:444-463 | A page that is split is shared out between two columns of at least two boxes, with at least 0.2 between every left and every right centre |
| `ReadingOrder.DocumentedBreak` | src/omniscribe/core/aligner.py:419-433 | A page is split as the comments say, at a widest gap above the threshold with two boxes on each side, exactly unless its widest gap is the threshold itself and leaves two boxes on each side |
| `ReadingOrder.SplitAtTheThreshold` | src/omniscribe/core/aligner.py:456-463 | Four boxes whose widest gap is exactly the threshold are split |
| `ReadingOrder.RowMajorSorts` | src/omniscribe/core/aligner.py:441-443 | Boxes that are not split are listed by top edge, then by left edge, then by position |
| `ReadingOrder.ReadByColumns` | src/omniscribe/core/aligner.py:428-470 | At any depth the order is a sequence of whole columns, left to right with 0.2 or more between the centres of any two, each column top to bottom, and no column could be split further if the depth guard was not reached |
| `ReadingOrder.UnitPageInColumns` | src/omniscribe/core/aligner.py:428-470 | For boxes normalised to the page the columns are always split as far as they go |
| `ReadingOrder.ReadingOrderAt` | src/omniscribe/core/aligner.py:428-470 | The recursive routine returns the order defined by the column split, at every depth |
| `ReadingOrder.ReadingOrderIndices` | src/omniscribe/core/aligner.py:428-470 | The routine as called: a permutation; top to bottom on a page that is not split, and on any page whole columns from left to right, each read top to bottom |
| `ReadingOrder.ReadingOrderIsPermutation` | src/omniscribe/core/aligner.py:430 | Whatever the boxes and the depth, every position occurs exactly once in the order |
| `ReadingOrder.LeftColumnFirst` | src/omniscribe/core/aligner.py:460-470 | Where the page splits, the order lists all of the left column and then all of the right, and the columns are apart |
| `ReadingOrder.BreakNarrows` | src/omniscribe/core/aligner.py:425-463 | Each side of a split has its centres in a span at least 0.2 shorter |
| `ReadingOrder.DepthBySpan` | src/omniscribe/core/aligner.py:436-440 | The recursion goes no deeper than the span of the centres allows |
| `ReadingOrder.GuardUnused` | src/omniscribe/core/aligner.py:438-442 | Where the depth guard is not reached the order is that of the recursion without a guard |
| `ReadingOrder.GuardUnreachable` | src/omniscribe/core/aligner.py:442 | For boxes normalised to the page the recursion never enters a level deeper than 5, so the limit of 50 changes nothing |
| `StableSorting.SortedIndicesSorts` | src/omniscribe/core/aligner.py:443-445 | `sorted` over positions lists each position once, by key and then by position |
| `AlignText.StripAllTrims` | src/omniscribe/core/aligner.py:483-493 | Every line handed to the aligner is non-empty and has nothing left to strip |
| `AlignText.RawLinesJoin` | src/omniscribe/core/aligner.py:487-492 | The raw lines hold no line break, and joined by line breaks are the text or the joined items that came in |
| `AlignText.KeptInOrder` | src/omniscribe/core/aligner.py:493 | The lines kept are all raw lines that are not blank, stripped and in their order |
| `TextLines.StripSplits` | src/omniscribe/core/aligner.py:493 | Stripping takes away white space at the two ends and nothing else |
| `AlignText.JoinOfBoxTexts` | src/omniscribe/core/aligner.py:386-389 | Joining the texts of the boxes that got any gives the same string as joining the gathered lines |
| `AlignText.OutcomeIsSound` | src/omniscribe/core/aligner.py:336-345 | In every box order the aligner finds a match, keeps all lines in sequence, and no alignment in that order is cheaper |
| `AlignText.OutcomeShares` | src/omniscribe/core/aligner.py:336-345 | In every box order each box gets the lines from its match up to the next, for the alignment chosen in that order |
| `AlignText.BestInIsCheapest` | src/omniscribe/core/aligner.py:334-345 | The order kept has the least cost, and a tie keeps the first |
| `AlignText.CandidatesArePermutations` | src/omniscribe/core/aligner.py:325-333 | Every order tried is a permutation of the boxes |
| `AlignText.NoCheaperAlignment` | src/omniscribe/core/aligner.py:297-303 | No alignment in either reading order is cheaper than the one used |
| `AlignText.BestCandidate` | src/omniscribe/core/aligner.py:334-345 | The loop returns the order and mapping of the first cheapest candidate |
| `AlignText.FindCandidates` | src/omniscribe/core/aligner.py:325-333 | Both orders, or one when they coincide: the first is top to bottom, the last is column by column |
| `AlignText.PlaceTexts` | src/omniscribe/core/aligner.py:386-389 | Each box, at its place in the input, gets its lines joined by a space |
| `AlignText.BoundFromMapping` | src/omniscribe/core/aligner.py:386-398 | Reading the returned texts in the chosen order, empty ones left out, gives back all lines in order |
| `AlignText.Align` | src/omniscribe/core/aligner.py:289-398 | Per path: what is returned without boxes, without lines, for one line over five boxes or more, and box by box, where each box gets, joined by a space, the lines from its match up to the next match in the cheapest alignment of the chosen order, and the lines of the boxes in that order are exactly the input lines; one tuple per box comes back exactly when it is not one of the two full-page cases |
| `EditDistance.ComputeLevenshteinDistance` | src/omniscribe/confidence_eval.py:316-340 | The two-row loop with early exits and operand swap computes the textbook distance |
| `EditDistance.NextRow` | src/omniscribe/confidence_eval.py:330-339 | One pass over the shorter sequence turns the row of distances of a prefix into that of the next prefix |
| `EditDistance.NoCheaperScript` | src/omniscribe/confidence_eval.py:317 | No sequence of keeps, replacements, insertions and deletions that turns one sequence into the other costs less than the distance |
| `EditDistance.CheapestScript` | src/omniscribe/confidence_eval.py:317 | Some such sequence costs exactly the distance |
| `EditDistance.Symmetric` | src/omniscribe/confidence_eval.py:325-327 | The distance does not depend on the order of its arguments, which is what the operand swap needs |
| `EditDistance.Bounds` | src/omniscribe/confidence_eval.py:320-323 | The distance lies between the difference of the lengths and the greater length |
| `EditDistance.ZeroIffEqual` | src/omniscribe/confidence_eval.py:318-319 | The distance is zero exactly on equal sequences |
| `EditDistance.Triangle` | src/omniscribe/confidence_eval.py:316-340 | The triangle inequality |
| `EditDistance.ComputeCer` | src/omniscribe/confidence_eval.py:343-360 | The character error rate |
| `EditDistance.ComputeWer` | src/omniscribe/confidence_eval.py:363-384 | The word error rate, over the words the two texts split into |
| `TextLines.WordsAroundSpace` | src/omniscribe/confidence_eval.py:376-377 | White space anywhere in a text separates the words before it from those behind it |
| `TextLines.OneWord` | src/omniscribe/confidence_eval.py:376-377 | Text without white space is a single word |
| `TextLines.WordsAreWords` | src/omniscribe/confidence_eval.py:376-377 | No word is empty or holds white space, and an empty text has no words |
| `EditDistance.ErrorRateRange` | src/omniscribe/confidence_eval.py:351-353 | A rate is never negative, is zero exactly for a perfect match, and when normalised is at most the greater length over the reference length |
| `EditDistance.DocumentedRate` | src/omniscribe/confidence_eval.py:349 | The rate equals the documented quotient, or the distance when it is not normalised, exactly unless the reference is empty and the hypothesis has two items or more |
| `BlockMatching.IouRange` | src/omniscribe/confidence_eval.py:134-146 | For all boxes, inverted ones included, the score is in [0, 1], positive exactly when the insides meet, and 1 exactly for equal boxes with an inside |
| `BlockMatching.IouSymmetric` | src/omniscribe/confidence_eval.py:134-146 | The score is symmetric |
| `BlockMatching.IouFormula` | src/omniscribe/confidence_eval.py:134-146 | For boxes that overlap, the score times the area that either covers, both in coordinates, is the area that both cover |
| `BlockMatching.FindBest` | src/omniscribe/confidence_eval.py:273-279 | The inner loop returns the first strictly best block not yet used |
| `BlockMatching.ComputeReport` | src/omniscribe/confidence_eval.py:259-310 | The greedy loop gives each ground-truth block in turn the first best free block, by intersection over union, if it meets the threshold |
| `BlockMatching.LineMeans` | src/omniscribe/confidence_eval.py:272-303 | The block of a line is one no earlier line has, its score is the intersection over union with that block, no other such block scores higher nor an earlier one as high, and it is given exactly when that score is positive and meets the threshold |
| `BlockMatching.BestFreeRange` | src/omniscribe/confidence_eval.py:273-279 | The block found is free and scores at least as well as every free block; none is found exactly at score 0 |
| `BlockMatching.GreedyLine` | src/omniscribe/confidence_eval.py:272-303 | Each line of the report is the judgement of the best block the earlier lines left free |
| `BlockMatching.NoReuse` | src/omniscribe/confidence_eval.py:266 | No pipeline block is matched twice |
| `BlockMatching.BetterWasTaken` | src/omniscribe/confidence_eval.py:266-281 | A block that scores strictly better than what a line reports was taken by an earlier line |
| `BlockMatching.PickScore` | src/omniscribe/confidence_eval.py:280-291 | A matched block has the reported score and meets the threshold |
| `BlockMatching.MatchedMeansPaired` | src/omniscribe/confidence_eval.py:98-99 | A line counts as matched exactly when it was given a block or the threshold is not positive |
| `BlockMatching.RecallWithoutAnyPair` | src/omniscribe/confidence_eval.py:98-103 | With threshold 0 one block and nothing detected give recall 1 |
| `BlockMatching.RecallRange` | src/omniscribe/confidence_eval.py:101-103 | Recall is in [0, 1] |
| `BlockMatching.RecallIsShare` | src/omniscribe/confidence_eval.py:97-103 | Recall times the number of ground-truth blocks, at least one, is the number of lines whose score meets the threshold |
| `BlockMatching.PairsArePairing` | src/omniscribe/confidence_eval.py:259-310 | The report's pairs are a one-to-one pairing at or above the threshold |
| `BlockMatching.Maximal` | src/omniscribe/confidence_eval.py:259-310 | No further pair at or above a positive threshold could be added |
| `BlockMatching.AtLeastHalf` | src/omniscribe/confidence_eval.py:259-310 | Greedy matching pairs at least half as many blocks as any one-to-one pairing at or above the threshold |
| `RateLimiter.RateLimitMiddleware.constructor` | src/omniscribe/middleware/rate_limit.py:152-168 | The limiter starts consistent with an empty history; no limit or one not above zero switches it off |
| `RateLimiter.RateLimitMiddleware.CheckRateLimit` | src/omniscribe/middleware/rate_limit.py:186-227 | On every request of every run it is admitted exactly when fewer of its client's requests than the limit were accepted in the last 60 seconds, by a limiter that remembers every request; the announced delay is that limiter's too |
| `RateLimiter.RateLimitMiddleware.CheckWindow` | src/omniscribe/middleware/rate_limit.py:196-227 | The same for a limiter that is switched on |
| `RateLimiter.RateLimitMiddleware.PruneStale` | src/omniscribe/middleware/rate_limit.py:200-209 | Dropping stale clients leaves the state consistent with the full history |
| `RateLimiter.Evict` | src/omniscribe/middleware/rate_limit.py:216-218 | The eviction loop drops only times out of the window and stops at one inside it |
| `RateLimiter.Decide` | src/omniscribe/middleware/rate_limit.py:220-227 | Comparing the length of an evicted queue with the limit decides as counting in the full history does |
| `RateLimiter.AcceptedShape` | src/omniscribe/middleware/rate_limit.py:145-149 | Accepted times are in order, and any limit-plus-one of them in a row span a whole window |
| `RateLimiter.CountIsSize` | src/omniscribe/middleware/rate_limit.py:216-221 | The count compared with the limit is the number of accepted times in the last 60 seconds |
| `RateLimiter.NoWindowOverLimit` | src/omniscribe/middleware/rate_limit.py:145-149 | No 60-second window, wherever it lies, holds more accepted requests of one client than the limit |
| `RateLimiter.OthersDoNotMatter` | src/omniscribe/middleware/rate_limit.py:211-214 | Requests of other clients change nothing |
| `RateLimiter.DeniedShape` | src/omniscribe/middleware/rate_limit.py:220-221 | A denied request finds exactly the limit in its window, the oldest being the one so many places from the end |
| `RateLimiter.RetryIsLeast` | src/omniscribe/middleware/rate_limit.py:222-224 | The announced delay is the least whole number of seconds, at least one, after which the oldest request of the window is 60 seconds old |
| `RateLimiter.SilentClientReturns` | src/omniscribe/middleware/rate_limit.py:220-224 | A denied client that stays silent is admitted exactly once the oldest request of its window is 60 seconds old; the announced delay, between 1 and 60, is long enough and, above 1, a second less is not |
| `RateLimiter.QueueIsWindow` | src/omniscribe/middleware/rate_limit.py:216-220 | An evicted queue holds exactly the accepted times of the window, so its length is the count to compare |
| `RateLimiter.ForgettingTracks` | src/omniscribe/middleware/rate_limit.py:200-209 | Forgetting a client whose last accepted request has left the window changes no later decision |
| `RateLimiter.StoringTracks` | src/omniscribe/middleware/rate_limit.py:211-227 | Storing the evicted queue, with the time appended when admitted, keeps the state consistent |
| `LeaseScripts.NextIsUnique` | src/omniscribe/plugins/jobs_redis.py:61-67 | What a claim must hand out is uniquely determined by the keys |
| `LeaseScripts.NextMeans` | src/omniscribe/plugins/jobs_redis.py:61-67 | The job to hand out is queued, not cancelled and not finished, and every other such job has a higher score, or the same and a higher id; there is none exactly when every queued job is cancelled or finished |
| `LeaseScripts.ClaimedMeans` | src/omniscribe/plugins/jobs_redis.py:68-115 | What each key holds after a claim: the job is active with its deadline and leased, exactly the jobs up to it have left the queue, and only those purged have lost their payload |
| `LeaseScripts.PurgeThenClaim` | src/omniscribe/plugins/jobs_redis.py:81-114 | Purging an ineligible head and then claiming has the same answer and effect as claiming |
| `LeaseScripts.RedisKeys.ClaimScript` | src/omniscribe/plugins/jobs_redis.py:68-115 | The loop ends and hands out the queued job with the lowest score that is neither cancelled nor finished, or none exactly when there is none, stated key by key; it purges exactly the ineligible jobs ahead of it |
| `LeaseScripts.RedisKeys.RenewScript` | src/omniscribe/plugins/jobs_redis.py:119-134 | Renewal succeeds exactly for the owner of an active job and moves only that job's deadline |
| `LeaseScripts.RedisKeys.FinishScript` | src/omniscribe/plugins/jobs_redis.py:138-153 | Finishing succeeds exactly for the owner and removes the job's active entry, lease, payload and attempts |
| `LeaseScripts.RedisKeys.RequeueScript` | src/omniscribe/plugins/jobs_redis.py:157-174 | Requeueing succeeds exactly for the owner, or for anyone who names none, and moves the job from active to queue |
| `LeaseScripts.RedisKeys.RecoverScript` | src/omniscribe/plugins/jobs_redis.py:177-203 | Recovery touches only a job whose deadline has passed, and requeues it or gives it up by its attempts |
| `LeaseScripts.RedisKeys.RecoverStaleJobs` | src/omniscribe/plugins/jobs_redis.py:1046-1090 | Recovering expired jobs one by one has the effect of recovering all of them at once, whatever the order |
| `LeaseScripts.RecoverOneMore` | src/omniscribe/plugins/jobs_redis.py:1063-1069 | One more recovery extends the joint effect by that job alone |
| `LeaseScripts.RedisKeys.SubmitPipeline` | src/omniscribe/plugins/jobs_redis.py:543-548 | Submitting stores the payload and queues the job in one step |
| `LeaseScripts.RedisKeys.CancelPipeline` | src/omniscribe/plugins/jobs_redis.py:577-585 | Cancelling marks the job and takes it off the queue in one step |
| `LeaseRuns.StepKeepsInv` | src/omniscribe/plugins/jobs_redis.py:68-203 | Every step keeps the invariant of the key space, whatever is written to job records in between |
| `LeaseRuns.RunKeepsInv` | src/omniscribe/plugins/jobs_redis.py:68-203 | In every state of every run queue and active are disjoint, exactly the active jobs are leased, queued and active jobs have their payload, no counter exceeds the retries, and no owner holds two leases |
| `LeaseRuns.StepAndJob` | src/omniscribe/plugins/jobs_redis.py:68-203 | A step takes a job out of the system exactly when its owner finishes it, its retries are used up, or it is cancelled or purged; jobs that stay keep their payload and only a submission brings one in |
| `LeaseRuns.NoJobLost` | src/omniscribe/plugins/jobs_redis.py:518-559 | Every submitted job is queued or active at the end of any run, or some step of the run disposed of it; a fallback claim does so only to a job that was cancelled or whose record had been terminal |
| `LeaseRuns.FinishedWasTerminal` | src/omniscribe/plugins/jobs_redis.py:792-811 | A record a fallback claim may have read as terminal was so in an earlier state of the run, or before it |
| `LeaseRuns.GoneForever` | src/omniscribe/plugins/jobs_redis.py:138-203 | A job that is neither queued nor active never becomes either again |
| `LeaseRuns.DisposedIsGone` | src/omniscribe/plugins/jobs_redis.py:138-203 | After it was finished or given up, a job is never queued or active in any later state |
| `LeaseRuns.PayloadKept` | src/omniscribe/plugins/jobs_redis.py:540-548 | While a job is queued or active its payload is the one submitted |
| `LeaseRuns.WaitsAtItsTime` | src/omniscribe/plugins/jobs_redis.py:543-552 | Until it is handed out, a submitted job waits in the queue with the time of its submission as its score |
| `LeaseRuns.FirstInFirstOut` | src/omniscribe/plugins/jobs_redis.py:61-62 | In any run, of two jobs not handed out before, the one submitted later is handed out only if the other has left the queue, is cancelled or is finished |
| `LeaseRuns.StepAndOwner` | src/omniscribe/plugins/jobs_redis.py:119-174 | No step gives a lease back to an owner that does not hold it |
| `LeaseRuns.LostLeaseStaysLost` | src/omniscribe/worker.py:380-384 | Once an owner has lost its lease, each later renewal, finish and requeue by it fails and changes nothing, for the rest of any run |
| `LeaseRuns.StepAndAttempts` | src/omniscribe/plugins/jobs_redis.py:177-203 | A step changes a live job's attempts only by requeueing it in recovery |
| `LeaseRuns.CounterCounts` | src/omniscribe/plugins/jobs_redis.py:195-202 | The stored counter of a live job is the number of times recovery requeued it |
| `LeaseRuns.RetriesBounded` | src/omniscribe/plugins/jobs_redis.py:195-202 | In any run recovery requeues one job at most `max_retries` times |
| `LeaseRuns.CancelledNeverHandedOut` | src/omniscribe/plugins/jobs_redis.py:577-585 | After a cancel has committed no later claim of any run hands the job out, even after recovery requeued it |
| `WatchFallback.AttemptsGuarded` | src/omniscribe/plugins/jobs_redis.py:1119-1130 | No step changes the attempts of an active job and leaves the active set as it was, so watching the active set guards the counter |
| `WatchFallback.KnowledgeKept` | src/omniscribe/plugins/jobs_redis.py:876-894 | What a client has read stays true through every step that does not change a key it watches |
| `WatchFallback.ExecIsScript` | src/omniscribe/plugins/jobs_redis.py:1000-1027 | An EXEC that goes through has exactly the effect the Lua script would have at that moment, for all four operations, and the script would give the same answer |
| `WatchFallback.RefusalIsScript` | src/omniscribe/plugins/jobs_redis.py:932-954 | A read that makes the fallback give up happens when the script would refuse as well and change nothing |
| `WatchFallback.MoveIsScript` | src/omniscribe/plugins/jobs_redis.py:876-1143 | A watch, a read and a failed EXEC leave the keys alone; an EXEC that goes through is the script of its operation, enabled and applied at that moment |
| `WatchFallback.ExecDecides` | src/omniscribe/plugins/jobs_redis.py:876-894 | An EXEC that meets a changed watched key or is aborted is retried from the WATCH and changes nothing; any other is the script, and the client is done |
| `WatchFallback.DirtyExactly` | src/omniscribe/plugins/jobs_redis.py:876-894 | Another's step makes a client's EXEC fail exactly when it changes the active set or the lease of the client's job |
| `WatchFallback.UndisturbedIsScript` | src/omniscribe/plugins/jobs_redis.py:876-1143 | A client nobody disturbs ends after one attempt, and the keys are as the script would have left them |
| `WatchFallback.Refines` | src/omniscribe/plugins/jobs_redis.py:876-1143 | Every run of scripts interleaved with WATCH fallbacks of any number of clients follows a run of scripts alone, state for state and script for script |
| `WatchFallback.MixedRetriesBounded` | src/omniscribe/plugins/jobs_redis.py:1116-1143 | Scripts and fallbacks together requeue one job at most `max_retries` times |
| `LeaseTiming.OthersCannotTake` | src/omniscribe/plugins/jobs_redis.py:177-203 | Before the deadline no step of anyone else takes the lease, recovers the job or hands it out |
| `LeaseTiming.OnTimeKeepsLease` | src/omniscribe/plugins/jobs_redis.py:119-134 | An owner that acts before each deadline its claim or last renewal wrote holds its lease throughout: no recovery takes the job and no claim hands it out |
| `LeaseTiming.OnTimeMeansClose` | src/omniscribe/plugins/jobs_redis.py:860-868 | With renewals that write the current time plus the timeout, being before each deadline is the same as acting less than a timeout apart |
| `LeaseTiming.Lose` | src/omniscribe/plugins/jobs_redis.py:177-203 | An owner that once lets a timeout pass is recovered in some run, and its later renewals and its finish are in vain |
| `LeaseTiming.KeptExactlyWhenClose` | src/omniscribe/plugins/jobs_redis.py:119-203 | For any times of renewals and of a final step: the owner still owns the job at every one of them, in every run of the queue, exactly when no two in a row, counting the claim, lie a timeout or more apart |
| `LeaseRenewal.RenewLease` | src/omniscribe/plugins/jobs_redis.py:854-894 | A call that is refused early answers false; if the script replied the answer is the script's; otherwise it is true exactly if some round of the fallback commits after nothing but conflicts |
| `LeaseRenewal.FallbackMeaning` | src/omniscribe/plugins/jobs_redis.py:876-894 | The fallback reports success exactly when some round commits after nothing but conflicts |
| `LeaseRenewal.RenewLeaseLoop` | src/omniscribe/worker.py:440-459 | The loop renews at the modelled times and is still going exactly if no call returned false |
| `LeaseRenewal.NowAdds` | src/omniscribe/worker.py:448-451 | Each turn of the loop comes a third of the timeout, but at least 0.05 seconds, and its own delay after the turn before |
| `LeaseRenewal.BeatsAdd` | src/omniscribe/worker.py:450-459 | A turn renews exactly when its call returned true and no call before it returned false |
| `LeaseRenewal.KeptUntilTimeout` | src/omniscribe/worker.py:440-459 | Renewals of the loop that come close together keep the job, in every run, exactly until a timeout after the last of them |
| `LeaseRenewal.CalmLoopKeepsJob` | src/omniscribe/worker.py:448-459 | With a timeout of 0.15 seconds or more, exceptions one at a time with delays under a third of the timeout, and no call that returned false, the job is kept in every run up to the time the next turn is due |
| `LeaseRenewal.ToleranceNeedsTimeout` | src/omniscribe/worker.py:448 | Single exceptions never cost the job, in any run and for any such delays, exactly when the timeout is at least 0.15 seconds |
| `LeaseRenewal.RenewNeverRaises` | src/omniscribe/plugins/jobs_redis.py:870-894 | No renewal call raises: a connection error comes back as a plain refusal |
| `LeaseRenewal.FirstFailureEndsIt` | src/omniscribe/worker.py:454-459 | The turn before the first failed call makes the last renewal, whatever the later turns would have come to |
| `LeaseRenewal.FailedCallKeepsJob` | src/omniscribe/worker.py:454-459 | When the call of some turn fails, the job is kept in every run exactly if it is given up less than a timeout after the turn before |
| `LeaseRenewal.SucceedingCallsKeepJob` | src/omniscribe/worker.py:440-459 | While every call succeeds the job is kept in every run exactly until a timeout after the latest turn |
| `LeaseRenewal.OneLostTurn` | src/omniscribe/worker.py:454-459 | One failed first call: a run in which a recovery requeues the job, another owner claims it, and the finish of the first changes nothing |
| `LocalQueue.MoveKeepsOk` | src/omniscribe/plugins/jobs.py:405-711 | Every step of worker, cancel calls, shutdown and sweep keeps the queue's invariant |
| `LocalQueue.RunIsOk` | src/omniscribe/plugins/jobs.py:405-711 | The invariant holds in every state of every run |
| `LocalQueue.RecordedCancelWins` | src/omniscribe/plugins/jobs.py:664-667 | A cancel recorded before the runner returned settles it: the job is complete in no later state of any run |
| `LocalQueue.CompleteMeansUncancelled` | src/omniscribe/plugins/jobs.py:664-684 | A complete job's runner returned at a moment when no cancel was recorded |
| `LocalQueue.ClosedIsTerminal` | src/omniscribe/plugins/jobs.py:693-703 | Once the worker is done marking a job cancelled, the record is terminal and never complete afterwards |
| `LocalQueue.RecordedCancelIsTooLate` | src/omniscribe/plugins/jobs.py:405-423 | When a cancel is recorded, at any step of any run, the job can still end complete exactly if its record is complete already or the worker is between the return of the runner and the write of `complete` |
| `LocalQueue.FinishingCompletes` | src/omniscribe/plugins/jobs.py:668-684 | From there the worker completes the job with its own next steps, three at most |
| `LocalQueue.SettledStays` | src/omniscribe/plugins/jobs.py:625-703 | From any other state in which a cancel was recorded no run leads to a complete job |
| `LocalQueue.LateCancelIsTooLate` | src/omniscribe/plugins/jobs.py:405-423 | A run in which a cancel is accepted after the runner returned and the job ends complete |
| `LocalQueue.RunnerEnds` | src/omniscribe/plugins/jobs.py:647-690 | When the runner returns or raises, the worker's next steps end the job cancelled if a cancel is on record or the exception is named so, else complete after a return and in error after an exception; only complete is written over a terminal record |
| `LocalQueue.FailedAwaitEnds` | src/omniscribe/plugins/jobs.py:588-595 | When anything else the worker awaits raises, the job ends in error, unless its record is terminal |
| `LocalQueue.TakenJobStarts` | src/omniscribe/plugins/jobs.py:625-646 | The job in front of the queue runs, unless a cancel is on record, which ends it cancelled, or its record is terminal |
| `LocalQueue.CancelAnswers` | src/omniscribe/plugins/jobs.py:405-423 | A cancel call answers false and changes nothing for a missing or terminal job; otherwise it answers true, the cancel is on record, and a queued job is cancelled at once |
| `LocalQueue.TrueMeansRecorded` | src/omniscribe/plugins/jobs.py:413-423 | In any run, whatever happens between its steps, a cancel call answers true exactly if it recorded the cancel |
| `LocalQueue.ListedRowsClose` | src/omniscribe/plugins/jobs.py:507-524 | A row listed by the sweep ends cancelled if it was listed as queued, in error if as running, and is left alone otherwise |
| `LocalQueue.FirstInFirstOut` | src/omniscribe/plugins/jobs.py:383-583 | In any run the jobs the worker took, followed by those still queued, are the jobs put on the queue in order |
| `StateBackend.UpsertInPlace` | src/omniscribe/plugins/state_backend_memory.py:111-114 | Replacing a record leaves every row where it was |
| `StateBackend.UpsertAtEnd` | src/omniscribe/plugins/state_backend_memory.py:111-114 | A new record goes to the end |
| `StateBackend.MemoryStateBackend.UpsertJob` | src/omniscribe/plugins/state_backend_memory.py:111-114 | The store afterwards is the old one with that record replaced or appended, ids still distinct |
| `StateBackend.MemoryStateBackend.GetJob` | src/omniscribe/plugins/state_backend_memory.py:116-119 | The record of that id, and none exactly when there is none |
| `StateBackend.MemoryStateBackend.ListJobs` | src/omniscribe/plugins/state_backend_memory.py:121-127 | The rows at the given positions of the list order, newest first and of equal age in order of insertion, as many as the limit and the end of the list allow |
| `StateBackend.NewestFirstIsListOrder` | src/omniscribe/plugins/state_backend_memory.py:124-126 | The list takes every row exactly once, newest first, equal ages in order of insertion |
| `StateBackend.PagesTileTheList` | src/omniscribe/plugins/state_backend_memory.py:127 | Pages fetched one behind the other until one is empty are together the whole list, no row missed or repeated |
| `InterruptedSweep.OneMoreRow` | src/omniscribe/plugins/jobs.py:507-529 | Rewriting the next row moves no row in the list order |
| `InterruptedSweep.NextPage` | src/omniscribe/plugins/jobs.py:498-505 | The next page lists the next rows as they were at the start, however many rows were rewritten before it |
| `InterruptedSweep.DoneIsSwept` | src/omniscribe/plugins/jobs.py:496-530 | When the pages are exhausted every row was visited once |
| `InterruptedSweep.SweptLeavesNone` | src/omniscribe/plugins/jobs.py:482-484 | After a sweep no row is queued or running |
| `InterruptedSweep.SecondSweepChangesNothing` | src/omniscribe/plugins/jobs.py:482-484 | Sweeping a store with no queued or running row leaves every row as it is |
| `InterruptedSweep.SweepsCompose` | src/omniscribe/plugins/jobs.py:562-578 | Cancelling the queued rows first and closing the rest then is one sweep |
| `InterruptedSweep.InMemoryJobQueue.Sweep` | src/omniscribe/plugins/jobs.py:496-530 | Every queued row ends cancelled and, if running rows are swept too, every running row in error with the restart message, at a time the clock read; every other row is untouched, and the count is the number of rows closed |
| `InterruptedSweep.InMemoryJobQueue.MarkInterruptedTerminal` | src/omniscribe/plugins/jobs.py:464-530 | Refused while a worker exists; otherwise queued rows end cancelled, running rows end in error, the rest is untouched, the count is exact and nothing is left stranded |
| `InterruptedSweep.InMemoryJobQueue.ShutdownOwned` | src/omniscribe/plugins/jobs.py:555-578 | After shutdown there is no worker and no payload, and no row is left queued or running |
| `JsonDecoder.ElementsElsewhere` | src/omniscribe/utils/json_parse.py:69 | The elements of a container decode to the same values wherever the same text stands |
| `JsonDecoder.ValueElsewhere` | src/omniscribe/utils/json_parse.py:69 | A decode depends only on the text it consumes, plus one character behind a scalar |
| `JsonDecoder.LoadsIsDecode` | src/omniscribe/utils/json_parse.py:67-71 | Loading the text of a bracket span and decoding in place at its open end succeed together and agree, when the decode stops at the span's end |
| `JsonTexts.StringEndIsRaw` | src/omniscribe/utils/json_parse.py:54-56 | A string ends at the first quote behind text made of plain characters, simple escapes and Unicode escapes, and nowhere else |
| `JsonTexts.ScalarIsToken` | src/omniscribe/utils/json_parse.py:54-56 | The scalars taken are exactly the literals and the decimal numbers, by the grammar of section 6 of RFC 8259 with Python's three additions |
| `JsonTexts.DecodesExactly` | src/omniscribe/utils/json_parse.py:87 | A value is decoded between two positions exactly when a text of it, by the grammar, stands there with containers nested within the limit, and a scalar is not cut short |
| `JsonTexts.LoadsExactly` | src/omniscribe/utils/json_parse.py:54-56 | Loading gives a value exactly when the whole text is a text of it with white space around it |
| `JsonTexts.TooDeepExactly` | src/omniscribe/utils/json_parse.py:57-90 | Decoding ends in a RecursionError exactly where brackets nest beyond the limit behind text that decodes |
| `JsonTexts.WrittenReads` | src/omniscribe/utils/json_parse.py:54-56 | The text that writing a value gives, with any white space behind commas and colons, is a text of it wherever it stands |
| `JsonTexts.WrittenDecodes` | src/omniscribe/utils/json_parse.py:87 | Decoding gives back what was written, whatever stands behind it, and stops at its end |
| `JsonSpans.BalancedSpans` | src/omniscribe/utils/json_parse.py:12-41 | The loop returns the spans and the dirty mark of the character-by-character scan |
| `JsonSpans.SpansNestOrLieApart` | src/omniscribe/utils/json_parse.py:12-41 | Every emitted span is a matching pair of brackets, and any two are nested or apart |
| `JsonSpans.ValueCrossed` | src/omniscribe/utils/json_parse.py:12-41 | Scanning across any decodable value restores the bracket stack and the string state, and emits the value's own span if it is a container |
| `JsonSpans.DecodableIsSpanned` | src/omniscribe/utils/json_parse.py:12-41 | Every decodable bracket the scan saw outside a string is the open end of an emitted span that closes where the decode stops |
| `JsonSpans.SpansAreVisible` | src/omniscribe/utils/json_parse.py:34-40 | Spans start only at brackets seen outside strings |
| `JsonSpans.CleanScanSeesAllButEscaped` | src/omniscribe/utils/json_parse.py:15-17 | When the scan is not dirty, the only brackets it did not see stand right after a backslash |
| `ExtractJson.FindNextOpen` | src/omniscribe/utils/json_parse.py:75-84 | Two `find` calls and a minimum give the first open bracket of either kind |
| `ExtractJson.PerCandidate` | src/omniscribe/utils/json_parse.py:73-94 | The slow loop, over at most 1000 candidates |
| `ExtractJson.SlowFindsFirst` | src/omniscribe/utils/json_parse.py:73-92 | The slow loop finds a value exactly at the earliest bracket that decodes, and exactly when fewer brackets than the cap come before it |
| `ExtractJson.SlowRaises` | src/omniscribe/utils/json_parse.py:86-92 | A RecursionError escapes the slow loop exactly when the first bracket that does not merely fail to decode nests too deep, and is within the cap |
| `ExtractJson.SortedSpansSorts` | src/omniscribe/utils/json_parse.py:67 | The spans tried are all emitted spans, by increasing start |
| `ExtractJson.FirstOfIsFirst` | src/omniscribe/utils/json_parse.py:67 | The spans tried are the first 250 by start, or all when there are fewer |
| `ExtractJson.TrySpans` | src/omniscribe/utils/json_parse.py:67-71 | The loop returns the first span that loads |
| `ExtractJson.FastIsSound` | src/omniscribe/utils/json_parse.py:64-71 | What the fast path returns is decoded at the open end of a span, and no span starting earlier loads |
| `ExtractJson.SearchFor` | src/omniscribe/utils/json_parse.py:61-94 | Fast on a clean scan, slow on a dirty one or when no tried span loads |
| `ExtractJson.CleanSearchFindsFirst` | src/omniscribe/utils/json_parse.py:61-92 | On a clean scan the search returns the value the slow loop would find exactly when its bracket was seen, or there were spans and none of those tried loads |
| `ExtractJson.SearchIsSlow` | src/omniscribe/utils/json_parse.py:65-66 | Whatever the slow loop would find the search finds, if the scan is dirty or no open bracket follows a backslash |
| `ExtractJson.NoSpansNothingToFind` | src/omniscribe/utils/json_parse.py:62-63 | A clean scan without spans means that no bracket decodes, if no open bracket follows a backslash |
| `ExtractJson.EscapedBracketIsMissed` | src/omniscribe/utils/json_parse.py:61-63 | A quote, a backslash and an empty array: the answer is nothing although the array decodes and is the first bracket |
| `ExtractJson.ExtractJson` | src/omniscribe/utils/json_parse.py:44-94 | The whole function: the candidate text first, then the search; what it returns is characterised by the rows below |
| `ExtractJson.ExtractsFirst` | src/omniscribe/utils/json_parse.py:44-45 | Without a code fence the answer is the value at the earliest bracket that decodes within the cap, under the same condition |
| `ExtractJson.WholeComesBack` | src/omniscribe/utils/json_parse.py:46-56 | An object or array whose text is the whole of the stripped answer, or of what its code fence encloses, is returned |
| `ExtractJson.WrittenComesBack` | src/omniscribe/utils/json_parse.py:44-56 | An object or array that is written, alone or in a code fence, comes back |
| `ExtractJson.ComesBackAmidProse` | src/omniscribe/utils/json_parse.py:44-92 | An object or array written amid prose comes back if no bracket stands before it and, in a clean scan, none is escaped |
| `ExtractJson.ExtractIsSound` | src/omniscribe/utils/json_parse.py:44-94 | Without a code fence, a text of every value returned stands at some bracket of the answer and is what decodes there |
| `ExtractJson.ErrorExactly` | src/omniscribe/utils/json_parse.py:53-92 | The exact condition under which a RecursionError reaches the caller |
| `ExtractJson.RecursionErrorEscapes` | src/omniscribe/utils/json_parse.py:86-92 | For every recursion limit there is a text on which it does |

## Left out

- Floating-point rounding: coordinates, costs, scores and times are reals. Not-a-number and infinite values do not occur.
- DpAligner.FillTable: the infinity the tables are first filled with is not modelled; no cell is read before it is set.
- Detection of boxes, image decoding and cropping, coordinate clamping, PDF writing and model calls.
- Logging, and the reasons and figures it prints.
- Text similarity, average scores, BLEU, chrF, heading and table scores: logarithms and library code. The texts carried along by a block match are not part of the report model.
- The request side of the limiter: client address extraction, exempt paths, the response, the lock, and a clock read before the lock is taken.
- A memory bound for the limiter: pruning may remove nothing, so 10,000 tracked clients is not an enforced ceiling.
- LeaseRuns.NoJobLost: runs without `clear`, and with the owner-carrying finish and requeue only. `clear` and ownerless finish can delete the payload of a job still queued or active; ownerless requeue can revive a finished job. The worker's own ownerless calls (src/omniscribe/worker.py:244-251) are therefore outside the runs.
- The order in which `_execute_job` writes job records: those writes are not fenced by the lease, so a run allows any record to change to anything at any step, and nothing is claimed about record status in the distributed queue.
- The WATCH fallback of claim as a refinement: it reads the record without watching it. Runs include its commits, with a record check that may be out of date, so all run properties cover them.
- WatchFallback.RefusalIsScript: an error other than a conflict, at which the fallback answers `False`, is an EXEC that does not go through and is never tried again; closing the queue is likewise not a move of its own.
- LeaseScripts.RedisKeys.RecoverStaleJobs: the sweep has the keys to itself. In runs each single recovery is a step of its own, so what holds of runs holds of sweeps other clients interleave with.
- LeaseTiming.KeptExactlyWhenClose: clocks of different machines agree in that a recovery compares with a time not later than its step, and a renewal reads its clock when it takes effect.
- Payload serialisation, spool files, tokens, id generation, pub/sub, heartbeats, events and progress frames. Job ids are numbers in the models.
- The check of the local cancelled cache after a claim (src/omniscribe/plugins/jobs_redis.py:760-767): it is a finish by the owner, which runs include.
- LocalQueue.MoveKeepsOk: deleting records (`clear`) is not a move.
- InterruptedSweep.InMemoryJobQueue.ShutdownOwned: the sweep has the store to itself; the worker task is a flag, and staged input files are not modelled.
- The SQLite store and the claim of the store's owner at start-up.
- ExtractJson.ExtractJson: the regular expression for fenced code blocks is a parameter; the search properties are stated for text without a fence.
- JsonTexts.DecodesExactly: objects keep their members as a list with repeated keys, strings keep their escapes, numbers stay tokens, and a scalar is taken as the longest run of its characters. Python's recursion limit is a depth parameter, the same for decoding in place and for loading a slice.
