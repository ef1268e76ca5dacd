# Verified model of the tile pipeline

OXOOL renders a document into tiles, sends each tile to the browser as a keyframe or as a delta
against the tile sent before, and schedules all this work in a queue that rewrites itself. This
project models that pipeline in Dafny and proves what its parts promise each other. It has six parts.

* **Tile deltas** (`Pixels`, `DeltaRow`, `DeltaSimd`, `DeltaEncoder`, `DeltaTile`, `DeltaGenerator`).
  Pixel rows are run-length encoded, by a scalar and by an 8 lane encoder; two encoded tiles are
  compared into a stream of copy and pixel records. The specification is the browser's own decoder
  (`DeltaClient`, `DeltaStream`): what it draws from the bytes is the new tile.
* **The delta cache over whole runs** (`DeltaCache`, `DeltaRender`). Renders, forced keyframes, lookups,
  encodings, replacements and evictions of any number of threads interleave as atomic steps. In every
  reachable state the in-use assertions have held, and the client shows the last picture unless a
  delta was sent on top of a keyframe of odd width. `DeltaRender` tells from the state before a render
  what the client shows after it.
* **The render thread pool and its output** (`RenderPool`, `RenderPipeline`, `RenderOutput`, `RenderTiles`). The mutex and
  condition variable protocol as atomic steps; pool and delta cache as one system; where tiles lie in the shared pixmap; how the shared
  output is cut; and a whole render put together from layout, jobs and cutting.
* **The message queue** (`Messages`, `QueuePut`, `QueueGet`, `TextEdits`, `Invalidations`,
  `Tokens`, `InvalidationText`, `GetLaws`, `QueueRuns`, `EditRuns`, `InvalidationRuns`, `TileRequests`,
  `QueueInvariants`, `TileQueue`). `TileQueue.Queue`
  is the queue with its fields changed in place; its methods are proved against functions that say
  which indices leave the queue and what is appended, and the other modules prove what follows over
  every run of puts, gets and cursor moves.
* **Streaming SpookyHash** (`SpookyStream`): any split of a message into updates gives the one-shot hash.
* **Edit distance and clipboard** (`EditDistance`, `Clipboard`).

`Arith`, `Numerals` and `Wrappers` hold what several parts use. All files are checked together with `dafny verify dfyconfig.toml`.

## Where the code falls short of what it promises

Each of these is kept in the model as the code has it. A lemma gives an input on which the promise
fails, and another states exactly when it is kept.

* A tile rendered at an odd width is sent as a keyframe but leaves the cache as it was
  (kit/Delta.hpp:670-674). A later even render then sends a delta against a picture that the client
  no longer shows: `DeltaCache.OddKeyframeBreaks`. Known before the call: a render leaves the client on
  its picture if and only if it is not of even width, unforced, with a cached entry of its size while
  the client works from an odd keyframe, or if that entry is evicted in time:
  `DeltaRender.RenderKnownBefore`. Read off the messages: the client shows the last picture if and only
  if no delta was sent on top of an odd keyframe: `DeltaCache.ClientShowsLastPicture`.
* With exactly one worker, `run()` does not wait for it (common/RenderTiles.hpp:118). A spurious
  wake-up lets that worker take a job, and `run()` returns while it is in it: `RenderPool.OneWorkerBreaks`.
  The pool is sound if and only if it is not used in that way: `RenderPool.SoundExactlyWhen`. Used in
  that way it lets the next render of a tile start while a thread is still at the last one
  (`RenderPipeline.OneWorkerClashes`), and only then: `RenderPipeline.HandsApartExactlyWhen`.
* The queue reads an "EMPTY" invalidation as mode 0 whatever its mode (common/MessageQueue.cpp:154-158),
  while the receiver honours the mode (kit/ChildSession.cpp:2894-2899). "EMPTY" with a mode drops queued
  rectangles of mode 0 that it does not cover (`Invalidations.ModedEmptyLoses`), and is itself dropped by
  an "EMPTY" without one (`Invalidations.EmptyDropsModed`). A message takes a point away from no queue if
  and only if it does not read as all of the point's part, or is in the point's mode:
  `Invalidations.SpotKeptExactlyWhen`, and for all points `Invalidations.NoAreaLostExactlyWhen`.
* The text of a merged invalidation is cut at positions that assume single spaces between tokens
  (common/MessageQueue.cpp:348-354), while the tokenizer accepts more. With one space more behind the
  first token the type of the callback and the first number grow together, for every rectangle:
  `InvalidationText.OneSpaceBreaks`. The rectangle and nothing else is replaced, for all rectangles that
  can have been merged, if and only if the cuts fall into the gaps: `InvalidationText.RewriteExactlyWhen`.
* A tile request replaces queued ones that agree with it up to the version; mode and preview id come
  behind the version (wsd/TileDesc.hpp:226-242), so it also drops a request for another edit mode, or a
  tile of the document for a preview of the same place: `TileRequests.OtherModeDrops`. A message drops a
  request from no queue if and only if what it puts for that key, if anything, is in the end the same
  request: `TileRequests.RequestKeptExactlyWhen`.
* The row iterator replays a row exactly if and only if the pixels from the 257th on repeat the 256th:
  `DeltaRow.Replay`, with a row on which it does not in `DeltaRow.LongRowBreaks`. Tiles are at most 256 wide, so the delta code never meets the other case.
* The clipboard comes back as it was written if and only if every mime type is non-empty and free of
  newlines: `Clipboard.RoundTripExactlyWhen`, with two lists that do not in `Clipboard.BadMimeBreaks`.

## Model

| member | source | states |
|---|---|---|
| DeltaCache.ClientShowsLastPicture | kit/Delta.hpp:661-855 | In every state reachable by interleaved renders, forced keyframes and evictions: no in-use or location assertion has failed, and the client that received all messages of a location shows exactly the picture of the last one if and only if no delta was sent on top of a keyframe of odd width; it then draws the same from the data it kept |
| DeltaCache.EvenRunsStaySynced | kit/Delta.hpp:670-674 | In a run without renders of odd width that condition always holds |
| DeltaCache.OddKeyframeBreaks | kit/Delta.hpp:670-674 | A concrete run, even, odd, even, after which it does not hold |
| DeltaRender.RenderKnownBefore | kit/Delta.hpp:661-719 | From every reachable state, with any steps of other threads before and after its lookup: a whole render leaves the client on its picture if and only if, before it starts, not all of this holds: even width, no forced keyframe, a cached entry of its size, and a client on a keyframe of odd width; or the entry is evicted before the lookup |
| DeltaRender.RenderFinishes | kit/Delta.hpp:661-719 | From every reachable state a render that can start can also end, and then that condition decides |
| DeltaCache.StepKeepsInv | kit/Delta.hpp:406-433 | Each step of each thread keeps the invariant: an entry somebody works on is in use by exactly that task, evicted or not, and any delta made fits the messages sent so far |
| DeltaCache.RunKeepsInv | kit/Delta.hpp:464-482 | The invariant holds in every reachable state, with entries evicted at any time |
| DeltaCache.RenderKeyframe | kit/Delta.hpp:692-704 | A whole render without a usable entry: one keyframe goes out, the tile is cached at even widths and nothing changes at odd ones |
| DeltaCache.RenderSame | kit/Delta.hpp:706-719 | A whole render of the cached picture sends an empty delta and leaves the entry with the new wire id, no longer in use |
| DeltaGenerator.Generator.CreateDelta | kit/Delta.hpp:661-719 | A delta exactly when the width is even, an entry of the same size is cached and no keyframe is forced; it leads from the cached tile to the new one, is empty exactly if they are equal, and the new tile is cached, other entries untouched |
| DeltaGenerator.Generator.CompressOrDelta | kit/Delta.hpp:725-855 | For a part of the pixmap, under exactly that condition, a delta from the cached tile to it, and else all its pixels in wire form |
| DeltaGenerator.Generator.RebalanceDeltas | kit/Delta.hpp:464-482 | Over the limit, three quarters of the limit are left (none when dropping all), kept entries are unchanged, and no dropped entry is newer than a kept one |
| DeltaGenerator.DeltaRoundTrip | kit/Delta.hpp:500-589 | For every pair of tiles of one size up to 256 by 256: encoding both and comparing them gives bytes that the client, whatever it does to each pixel, decodes from the old tile to the new, and no bytes exactly if the tiles are equal |
| DeltaGenerator.EncodeTile | kit/Delta.hpp:328-358 | The rows of a tile, each encoding its pixels |
| DeltaGenerator.PixmapAt | kit/Delta.hpp:350-356 | Pixel x, y of a tile is the pixel of the pixmap as far from where the tile starts |
| DeltaTile.MakeDelta | kit/Delta.hpp:500-589 | Fails exactly on tiles of different size; else the payload is the ended bytes of records that stay inside the tile, whose counts fit bytes and that turn the old tile into the new one, is empty exactly if the tiles are equal, and holds pixel records only for rows that equal no old row |
| DeltaTile.FindRow | kit/Delta.hpp:536-541 | The rotating search, with unsigned wrap-around of its offset, finds the first equal old row counting up from there and around, or there is none at all |
| DeltaTile.Rotation | kit/Delta.hpp:538-541 | Every old row is looked at, wherever the search starts |
| DeltaTile.Unwrapped | kit/Delta.hpp:540-559 | The wrapped difference of two rows, added back, gives the row meant |
| DeltaTile.ChangedRow | kit/Delta.hpp:530-574 | A changed row is copied exactly if some old row equals it, from the first that the search meets; the search goes on from there unless a copy was extended; else the row is redrawn |
| DeltaTile.EmitCopy | kit/Delta.hpp:544-568 | The last copy record is counted up in place exactly if it goes on with this row and the row is not the last, else a record of one row is added; both have the effect of copying the one row |
| DeltaTile.ExtendCopy | kit/Delta.hpp:544-557 | Counting up the count byte of the last record gives the bytes, and the effect, of the record with one row more |
| DeltaEncoder.DiffRowTo | kit/Delta.hpp:268-319 | The bytes are those of runs that draw the new row over the old; at most 4 * width + 4 * ceil(width / 4) bytes; runs of at most 254 pixels, each at least four columns behind the one before |
| DeltaEncoder.NextRun | kit/Delta.hpp:275-299 | The next run starts at the first differing pixel and holds the new pixels; behind its first three all differ, and it ends at the end of the row, after 254 pixels, or after three or more where the rows agree |
| DeltaEncoder.RunsPaint | kit/Delta.hpp:268-319 | Runs on one row change that row as painted and leave all others |
| DeltaClient.DecodeRecords | browser/src/layer/tile/CanvasTileLayer.js:7775-7852 | Decoding the ended bytes of records does to the canvas what the records say, for any per-pixel conversion, and leaves the rest of the data |
| DeltaClient.RecordForm | kit/Delta.hpp:301-313 | The bytes of a record: 99, count, source, destination; or 100, row, column, length and the pixels |
| DeltaClient.ApplyShown | browser/src/layer/tile/CanvasTileLayer.js:7605-7626 | Applying a record commutes with the client's conversion of each pixel |
| DeltaStream.Shows | browser/src/layer/tile/CanvasTileLayer.js:7628-7773 | A client that received a keyframe and the deltas since shows the tile they lead to |
| DeltaStream.ShowsAgain | browser/src/layer/tile/CanvasTileLayer.js:7682-7762 | So does one that decodes the kept keyframe with all deltas appended, and goes on from there |
| DeltaStream.DeltaReceived | test/DeltaTests.cpp:158-238 | An encoder's delta takes the client from the old tile to the new, whatever follows it |
| DeltaStream.CanvasSize | browser/src/layer/tile/CanvasTileLayer.js:7628-7773 | No delta changes the size of the canvas |
| DeltaStream.KeyframeBytes | kit/Delta.hpp:725-855 | A keyframe is all rows in wire form |
| Pixels.CopyRow | kit/Delta.hpp:484-498 | RGBA bytes come out as they are; of every four BGRA bytes the first and third are exchanged, which is their wire form |
| DeltaRow.InitPixRowCpu | kit/Delta.hpp:152-201 | The scalar encoder yields masks and changed pixels that encode the row, for every width |
| DeltaRow.PixIterator.Next | kit/Delta.hpp:109-129 | After every step the iterator shows the pixel at its position, also once the run data is used up |
| DeltaRow.Replay | kit/Delta.hpp:91-130 | Iterating along an encoded row gives the row back if and only if its pixels past the 256th repeat it; so for every row of at most 256 pixels, and in part too |
| DeltaRow.LongRowBreaks | kit/Delta.hpp:109-129 | A row of 257 pixels that the iterator does not give back |
| DeltaRow.IdenticalIffEqualPixels | kit/Delta.hpp:254-265 | Encoded rows of the same width are identical if and only if their pixels are equal |
| DeltaRow.EncodingUnique | kit/Delta.hpp:152-201 | A row has only one encoding |
| DeltaRow.DecodingUnique | kit/Delta.hpp:109-129 | An encoding has only one row of a given width |
| DeltaSimd.InitPixRowSimd | kit/DeltaSimd.c:95-173 | The 8 lane encoder encodes the row, and its over-wide stores stay inside the scratch buffer |
| DeltaSimd.InitGatherLut | kit/DeltaSimd.c:31-74 | Entry p of the table permutes the lanes whose bit is clear in p to the front, in order |
| DeltaSimd.DiffMaskRepeats | kit/DeltaSimd.c:78-83 | Bit b of the mask says that pixel b of the block repeats its left neighbour, across blocks too |
| DeltaSimd.SimdValidation | kit/Delta.hpp:214-239 | Both encoders give the same masks, length and pixels for every 256 pixel row |
| DeltaSimd.InitRow | kit/Delta.hpp:205-252 | Whichever encoder is taken, the row is encoded |
| RenderPool.SoundExactlyWhen | common/RenderTiles.hpp:79-143 | Every schedule keeps all assertions, and every pushed job queued or run exactly once with no worker in one outside run(), if and only if there is not one worker with spurious wake-ups and runs of two jobs |
| RenderPool.RunReturns | common/RenderTiles.hpp:109-132 | When run() returns, the queue is empty, the jobs run are exactly the jobs pushed, and no worker is in one |
| RenderPool.StepKeepsInv | common/RenderTiles.hpp:87-107 | Each step keeps: no job lost or doubled, the counter counts the jobs being run, the waiting caller is notified exactly when all is done |
| RenderPool.NeverStuck | common/RenderTiles.hpp:122-126 | No wake-up is lost: during run() a step that needs no spurious wake-up is always possible |
| RenderPool.RunNotifies | common/RenderTiles.hpp:117-123 | With more than one worker and job run() leaves no worker waiting, and takes the first job |
| RenderPool.JobsInOrder | common/RenderTiles.hpp:79-94 | Jobs are queued at the end and taken from the front, by the thread that then runs them |
| RenderPool.RunEnds | common/RenderTiles.hpp:109-132 | From every reachable state, in any schedule: after more steps than twice the queued jobs, the running ones, the workers and the spurious wake-ups together, run() has returned |
| RenderPool.RunCanEnd | common/RenderTiles.hpp:109-132 | From every reachable state it can return, without any spurious wake-up |
| RenderPool.StepsRunOut | common/RenderTiles.hpp:122-126 | Each step during run() ends it or lowers the bound; a spurious wake-up raises it by one at most |
| RenderPool.StopReachesAll | common/RenderTiles.hpp:62-72 | After stop() no worker is left waiting, and each exits in its next step |
| RenderPool.OneWorkerBreaks | common/RenderTiles.hpp:118-126 | The failing schedule: one worker, two jobs, a spurious wake-up |
| RenderOutput.Layout | common/RenderTiles.hpp:218-248 | The area is the smallest around the tiles, the pixmap has its whole tiles, every tile's pixel rectangle lies inside; tiles on one grid have the rectangle that scaling the area gives them, and share no pixel |
| RenderPipeline.PipelineShowsLastPicture | common/RenderTiles.hpp:318-365 | Pool and cache as one system, in which a job starts on the cache as soon as a thread takes it: under every schedule no assertion of either fails, and the client shows the last picture under the condition of the cache alone |
| RenderPipeline.CacheRun | kit/Delta.hpp:706-717 | Every run of that system is a run of the cache: no job starts while another one at its location is under way |
| RenderPipeline.HandsApartExactlyWhen | common/RenderTiles.hpp:214-216 | Threads are never in two jobs at the same location, if and only if the pool is not one worker with spurious wake-ups and runs of two jobs |
| RenderPipeline.OneWorkerClashes | common/RenderTiles.hpp:109-132 | The failing schedule: two renders of one tile at once |
| RenderTiles.DoRender | common/RenderTiles.hpp:206-403 | For every list of different tiles, whatever is painted and in whatever order jobs end: each message is a keyframe or delta, marked Z or D, of the pixels of that tile's own rectangle, pixel by pixel, against what was cached for its place, tile size, part and view; at even widths every picture is cached there then, with its wire id; and nothing cached for another part, view, size or place changes |
| RenderTiles.Job | common/RenderTiles.hpp:318-360 | The bytes of one tile, cached with its wire id, and every other location left alone |
| RenderOutput.RenderArea | common/RenderTiles.hpp:218-238 | The area holds all tiles, and each of its four edges is that of a tile |
| RenderOutput.OverlapExactlyWhen | common/RenderTiles.hpp:289-295 | Two tiles share pixels if and only if they fall into the same cell |
| RenderOutput.AlignedTilesDisjoint | common/RenderTiles.hpp:289-295 | Different tiles on the grid get disjoint pixel rectangles |
| RenderOutput.SharedOutput.Append | common/RenderTiles.hpp:356-360 | A job's data goes to the end of the output, with its size noted |
| RenderOutput.SharedOutput.Slice | common/RenderTiles.hpp:392-403 | Each message gets the bytes that its own tile's job produced, in whatever order jobs ended |
| TileQueue.Queue.PutMessage | common/MessageQueue.cpp:29-73 | The queue afterwards is the queue without what the message replaces or absorbs, and the message or the combined one at its end |
| TileQueue.Queue.PutSingle | common/MessageQueue.hpp:87-110 | The same for a single message |
| TileQueue.Queue.CombineEdit | common/MessageQueue.hpp:131-242 | Finds the last queued edit of the kind, client and window with nothing in between that forbids it, takes it out and combines |
| TileQueue.Queue.RemoveDuplicate | common/MessageQueue.cpp:75-100 | Takes out the first queued message that is made obsolete, and nothing else |
| TileQueue.Queue.MergeInvalidations | common/MessageQueue.cpp:246-344 | One pass in place drops what the growing rectangle covers or joins, and no other message |
| TileQueue.Queue.Get | common/MessageQueue.cpp:504-635 | A message that is no tile is taken from the front; a preview too, and all previews right behind it go to the end in order; else the first leading tile of highest priority goes with all that combine with it, and is returned as a single tile exactly if there is none |
| GetLaws.GetTile | common/MessageQueue.cpp:529-634 | On the fields of messages and cursors: which tiles leave, that a single one is returned as it was, and that else the tiles are listed in order, of every position the first |
| GetLaws.GetPreview | common/MessageQueue.cpp:515-527 | A preview is returned, and the n previews right behind it go to the end of the queue, in order |
| GetLaws.GetOther | common/MessageQueue.cpp:515-527 | A message that is no tile is returned, and the rest stays |
| GetLaws.PriorityIs | common/MessageQueue.cpp:469-482 | The priority of a tile is the highest place in the view order of a view whose cursor touches it |
| TileQueue.Queue.FindPrioritized | common/MessageQueue.cpp:529-560 | The search with its early exit finds the first tile of highest priority of the whole leading run |
| TileQueue.Queue.TilePriority | common/MessageQueue.cpp:469-482 | The index of the newest view whose cursor the tile touches, or -1 |
| TileQueue.Queue.DeprioritizePreviews | common/MessageQueue.cpp:484-502 | The leading previews go behind everything else, in order |
| TileQueue.Queue.CombineTiles | common/MessageQueue.cpp:567-593 | All tiles that combine with the top one leave the queue, and only they |
| TileQueue.RemoveDuplicateTiles | common/MessageQueue.cpp:604-628 | The first tile of every position is left |
| TileQueue.Queue.UpdateCursorPosition | common/MessageQueue.hpp:282-305 | The view gets the cursor and becomes the newest |
| TileQueue.Queue.RemoveCursorPosition | common/MessageQueue.hpp:307-316 | The view leaves the order and the map |
| QueueGet.TileGet | common/MessageQueue.cpp:529-634 | A get on a tile returns the first tile of highest priority in the leading run; the positions returned are pairwise distinct and exactly those that left the queue, and all tiles share their parameters |
| QueueGet.DedupDistinct | common/MessageQueue.cpp:604-628 | Dropping duplicates leaves distinct positions, loses none and adds nothing |
| QueueGet.GetKeepsOrder | common/MessageQueue.cpp:504-562 | A get never reorders messages that are not tiles |
| QueueGet.GetAdvances | common/MessageQueue.cpp:504-562 | A message that is not a tile is returned from the front, and else moves up by at least one |
| QueueRuns.NoStarving | common/MessageQueue.cpp:538-545 | With k messages ahead of it, it is returned by at most the (k+1)-th get, whatever is put between, unless a put combines or replaces it |
| QueueRuns.MovesUp | common/MessageQueue.cpp:484-562 | While it is queued it is itself, at most at its old index less the gets since |
| QueueRuns.ReturnedIsDelivered | common/MessageQueue.cpp:504-562 | A message that leaves by a get is delivered as it was queued |
| QueueRuns.EditsPreserved | common/MessageQueue.hpp:131-242 | After any run, for every window of every client, delivered and queued edits with neighbours combined equal those sent, in order, and none has crossed a key, mouse, windowkey or one-word message |
| EditRuns.RunCombines | common/MessageQueue.hpp:131-242 | In every reachable queue two edits of the same kind, client and window have between them a one-word message, a key, mouse or windowkey message of that client, or an edit of it of the other kind |
| QueueRuns.CursorMoves | common/MessageQueue.hpp:282-305 | The view has the given cursor and comes last in the order; the others keep theirs and their order |
| QueueRuns.CursorGoes | common/MessageQueue.hpp:307-316 | The view has no cursor and no place; the others keep theirs |
| TextEdits.PutSees | common/MessageQueue.hpp:87-110 | Each put keeps that |
| TextEdits.CombinedTwo | common/MessageQueue.hpp:131-179 | Two edits of a kind and the combined one come to the same |
| TileRequests.NothingForgottenExactlyWhen | common/MessageQueue.cpp:75-100 | In all runs that put messages of some collection a requested tile is delivered since, in its place, part, mode and kind, or still queued, if and only if none of them ends with the same key in another mode or kind |
| TileRequests.NothingForgotten | common/MessageQueue.cpp:504-635 | From any queue, over every run of gets and of puts safe for it, a requested tile is delivered since or still queued |
| TileRequests.RequestKeptExactlyWhen | common/MessageQueue.cpp:29-73 | A message drops a request from no queue, if and only if what it puts for that key, if anything, is in the end the same request |
| TileRequests.OtherModeDrops | common/MessageQueue.cpp:75-100 | The failing inputs: the same tile in another mode, and a preview of it |
| QueueInvariants.RunKeepsInv | common/MessageQueue.cpp:363-459 | In every reachable queue: at most one state callback per view and command (other than ModifiedStatus), one cursor callback per view and type, one view callback per view, type and view id, each the newest sent; at most one request for each tile; and the view order lists the views with a cursor, each once |
| QueueInvariants.RunKeepsNewest | common/MessageQueue.cpp:363-459 | The same on the fields of messages: no two queued callbacks of a view with the same uno command other than none and .uno:ModifiedStatus, the same kind of cursor, or the same kind and view id, and no two requests for one tile; and each such callback is the last sent with these fields |
| QueueInvariants.PutSupersedes | common/MessageQueue.cpp:75-100 | A put of a tile or callback takes out the first message with these fields, if there is one, and nothing else |
| QueueInvariants.PutKeepsAll | common/MessageQueue.cpp:363-375 | A state callback without a command or of .uno:ModifiedStatus, a callback of no known kind, and an invalidation that does not parse drop nothing |
| QueueInvariants.StepKeepsInv | common/MessageQueue.hpp:282-316 | Each put, get, cursor update and cursor removal keeps that |
| Invalidations.SpotKeptExactlyWhen | common/MessageQueue.cpp:240-361 | For every message and point: it takes the point away from no queue at all if and only if it does not read as all of the point's part in mode 0, or is in the point's mode |
| Invalidations.NoAreaLostExactlyWhen | common/MessageQueue.cpp:240-361 | A message loses no area of any queue if and only if it does not read as all of its part in mode 0: it is no "EMPTY", and no rectangle of mode 0 that holds everything |
| Invalidations.PlainLostExactlyWhen | common/MessageQueue.cpp:240-361 | Of queues without an "EMPTY" in a mode a message loses no area if and only if it is none itself |
| Invalidations.EmptyDropsModed | common/MessageQueue.cpp:142-173 | A failing input: "EMPTY" without a mode, and a queued "EMPTY" with one |
| Invalidations.AreaKept | common/MessageQueue.cpp:240-361 | Every point of a view, part and mode that any queue or the message covers is covered once the message is queued, if it is safe for the point |
| Invalidations.ModedEmptyLoses | common/MessageQueue.cpp:142-173 | A failing input: "EMPTY" with a mode, and a queued rectangle of mode 0 |
| Invalidations.InsideIsDropped | common/MessageQueue.cpp:290-303 | No queued rectangle inside the incoming one survives |
| Invalidations.MergeLast | common/MessageQueue.cpp:246-344 | With the empty queue, what a put of an invalidation does to every queue, message by message: one of another view, part or mode stays; one inside goes; one that touches goes, and the rectangle grows to the smallest around both, if that is at most 15360 by 7680; any other stays |
| Invalidations.MergeNone | common/MessageQueue.cpp:246-252 | An empty queue holds the invalidation as it is then |
| Invalidations.SmallestMerge | common/MessageQueue.cpp:305-336 | Every rectangle that holds the incoming one and all that are dropped holds the one that is queued |
| Invalidations.MergedIsReasonable | common/MessageQueue.cpp:305-341 | Only rectangles are merged, never "EMPTY"; the merged one holds the old, is at most 15360 by 7680, and has its part and mode |
| InvalidationRuns.NothingLost | common/MessageQueue.cpp:240-361 | From any queue, over every run of gets and of puts safe for a point: a point of a queued invalidation is covered by a message delivered since, or by one still queued |
| InvalidationRuns.NothingLostExactlyWhen | common/MessageQueue.cpp:240-361 | In all runs that put messages of some collection the point is never lost, if and only if all of them are safe for it |
| InvalidationRuns.NothingPlainLost | common/MessageQueue.cpp:240-361 | The same for every point while no "EMPTY" in a mode is queued or put |
| InvalidationText.RewriteParsesBack | common/MessageQueue.cpp:346-359 | Under that condition the rewritten text parses back to the merged rectangle, with the same view, type, part and mode |
| InvalidationText.RewriteExactlyWhen | common/MessageQueue.cpp:346-359 | For every text, however spaced: rewriting replaces exactly the four tokens of the rectangle, for all rectangles of reasonable size in 32 bit numbers, if and only if the computed cuts fall into the spaces behind the third and the seventh token |
| InvalidationText.SingleSpaces | common/MessageQueue.cpp:346-359 | With single spaces they do |
| InvalidationText.OneSpaceBreaks | common/MessageQueue.cpp:346-359 | With one more behind the first token they do not: for all tokens and every rectangle the third token of the rewritten text is the callback type with the number glued to it |
| Tokens.TokenizeJoin | common/StringVector.hpp:54-79 | Tokens joined by single spaces come back |
| Tokens.SplitTokens | common/StringVector.hpp:54-79 | A text cut behind any of its tokens gives the tokens up to it, and the others |
| InvalidationText.ExtractText | common/MessageQueue.cpp:142-173 | From the text of any invalidation its rectangle, part and mode are read back; from "EMPTY" everything in mode 0, whatever mode the text says |
| SpookyStream.HashPieces | common/SpookyV2.h:104-114 | However a message is split into updates, and with Final called in between, the result is the hash of the whole |
| SpookyStream.SpookyHash.Update | common/SpookyV2.cpp:221-321 | The input so far grows by the message; the stash, block and length bookkeeping stays valid |
| SpookyStream.SpookyHash.Final | common/SpookyV2.cpp:325-370 | The hash of the input so far, which stays usable for more |
| SpookyStream.SpookyHash.constructor | common/SpookyV2.cpp:211-217 | An empty input with both seeds |
| SpookyStream.Hash128 | common/SpookyV2.cpp:147-206 | The one-shot hash: whole blocks mixed in order, the rest padded with its length |
| SpookyStream.HashSteps | common/SpookyV2.cpp:147-206 | Step by step: twelve words start from both seeds and the constant in turn, each 96 byte block is mixed in, the rest is zero filled and ended by its length |
| SpookyStream.HashSubBuffer | common/SpookyV2.cpp:372-391 | The hash of the bytes of the selected rows alone, whatever stride and offset; 0 where the buffer is too small |
| SpookyStream.SubRowAt | common/SpookyV2.cpp:372-391 | Byte c of pixel i of a hashed row is that of the pixmap, as far from where the rectangle starts |
| EditDistance.DistIsLeast | common/JsonUtil.hpp:53-83 | The distance is the least number of insertions, deletions and substitutions over all edit scripts |
| EditDistance.NoShorterScript | common/JsonUtil.hpp:53-83 | No script is shorter |
| EditDistance.ShortestScript | common/JsonUtil.hpp:53-83 | A script of that length exists |
| EditDistance.Metric | common/JsonUtil.hpp:53-83 | Symmetric, zero exactly on equal strings, and the triangle inequality |
| EditDistance.GetLevenshteinDist | common/JsonUtil.hpp:53-83 | The table computes that distance |
| Clipboard.RoundTripExactlyWhen | kit/ChildSession.cpp:1286-1299 | Reading what was written gives the same list if and only if all mime types are non-empty and free of newlines, whatever the contents |
| Clipboard.ReadBack | common/Clipboard.hpp:65-87 | The direction that callers rely on |
| Clipboard.ReadsEntry | common/Clipboard.hpp:65-87 | Of any two lines and a rest: nothing if a line is empty, else as many characters as the second says, up to the end of their line, or failure if it is negative or there are not enough |
| Clipboard.BadMimeBreaks | common/Clipboard.hpp:65-87 | Entries without a mime type, or with a newline in it, do not come back |
| Clipboard.ClipboardData.Read | common/Clipboard.hpp:65-87 | The reading loop appends exactly the entries of the stream, or fails where the format does |
| Clipboard.Write | kit/ChildSession.cpp:1286-1299 | The serialising loop |
| Clipboard.StrtollOfHex | common/Util.hpp:1062-1084 | A length written in hexadecimal is read back |
| Numerals.PlainNumeral | common/Util.hpp:1078-1084 | Numbers are written without leading zeros and in lower case |

## Left out

- zstd and libpng: compression is the identity and always succeeds; PNG previews, watermark blending, `paintPartTile` and tile dumps are not modelled.
- The 64 bit mask words are sets of their one bits, AVX2 registers sequences of 8 pixels, a pixel its four bytes.
- DeltaCache.ClientShowsLastPicture: one pixel mode for the whole run; tiles of more than 256 pixels a side, which the code asserts cannot happen, are not rendered; a render at a location starts after the one before has ended, which `RenderPipeline.CacheRun` derives from a pool that is used safely.
- DeltaStream.CanvasSize: the canvas takes its size from each keyframe, while the browser's is always a square of its tile size (browser/src/layer/tile/CanvasTileLayer.js:7441-7443, 7714-7718); that a client on an odd keyframe does not show an even picture rests on this.
- DeltaCache.StepKeepsInv: the encoding of a tile is one step, with any payload that meets `DeltaTile.MakeDelta`'s contract; it touches only the entry its task holds.
- DeltaGenerator.Generator.RebalanceDeltas: `std::sort` by wire id is taking the lowest repeatedly, so the choice among equal ids is open.
- DeltaClient.DecodeRecords: the browser writes to a canvas without bounds checks; the decoder here stops where a record leaves the canvas or the data, which the encoder's records never do.
- RenderPool.SoundExactlyWhen: jobs are names; a job that throws counts as run, as the pool's catch makes it.
- RenderOutput.Layout: coordinates are unbounded integers; the warning on pixmaps over 4096 pixels has no effect and is left out.
- Queue messages are parsed values: tokenizing, the text of tile messages, and JSON view ids are not modelled, except for the text of invalidations in `InvalidationText`.
- InvalidationText.RewriteExactlyWhen: numbers are unbounded.
- RenderTiles.DoRender: what is painted and the order in which jobs end are parameters, and jobs run one after the other; `DeltaCache` and `RenderPool` have them interleave.
- TileQueue.Queue.RemoveDuplicate: the comparison of tile texts up to the version is equality of all fields but version, preview id and mode.
- Counts, lengths and rectangle sums are unbounded integers throughout; 32 bit overflow is not modelled.
- SpookyStream.HashPieces: Mix, End and Short are parameters; the result holds for all of them, and their diffusion is not studied. The unaligned copy inside the block loops reads the same bytes and is left out.
- Clipboard.RoundTripExactlyWhen: contents of at most 2^63 - 1 bytes, the largest length `strtoll` can read.
- The websocket server's own tile cache, sessions, jails, logging and user interface are not modelled.
