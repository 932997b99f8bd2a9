# rwstat channel engine, in Dafny

This project models the channel engine of senseye's `rwstat` sensor
(`senses/rwstat.c`).  A channel takes a stream of bytes into a window of
`base * base` samples of `pack_sz` bytes each, and keeps a 256-bucket
byte histogram and a per-cell alpha (opacity) table.  On every step it
reports a frame status, announces its modes when they have changed,
refreshes the histogram, and computes the alpha table in one of three
ways: fully opaque, from the entropy of each row, or from the byte
patterns matched in the window.  It then packs every sample into a pixel
at a raster coordinate given by one of three mappings:

- wrap-around (row-major);
- tuple (two coordinate bytes per sample);
- a Hilbert curve, looked up in a table of uint16 coordinates.

Graph-mode events from the parent switch the clock, the mapping, the
packing and the alpha mode.

The model is in layers:

- `Types` (types.dfy) has bytes, an option type and the four mode
  enumerations, with assumed numeric codes (see "## Left out").
- `Hilbert` (hilbert.dfy) defines the curve a level at a time and proves
  that `hilbert_d2xy` computes it, that the curve is a bijection between
  `0 .. 4^k - 1` and the `2^k * 2^k` square, and that the uint16 lookup
  table inherits the bijection.
- `Histogram` (histogram.dfy) covers the uint32 buckets (wrap-around
  modelled), `rebuild_hgram` and `hnorm`.
- `Patterns` (patterns.dfy) is `update_ptnalpha`: a recursive
  specification of the scan, the properties of its result, and the
  array methods proved against it.
- `Dispatch` (dispatch.dfy) is the selector table of
  `rwstat_consume_event`.
- `Engine` (engine.dfy) is `struct rwstat_ch_priv` as a value, with one
  specification function per channel operation: `ch_step`, `ch_data`,
  `ch_pack`, `ch_resize`, `ch_map`, `ch_alpha`, `ch_reclock`, `ch_wind`
  and `ch_left`.  The mutual recursion of pack, resize and map is closed
  by ranks, and the ingest lemmas are proved here.
- `Control` (control.dfy) is event consumption, pattern registration,
  channel creation and the tick.
- `Raster` (raster.dfy) is where `pack_bytes` places each sample.
- `Channels` (channel.dfy) is the channel as a class over arrays.  The
  window, the alpha table, the histogram, the LUT and the pattern array
  are `array`s.  Every method is proved to leave the channel in the
  state that the matching specification function gives.

The channel's outputs are recorded as values, not performed:

- the events it sends and the frames it writes go to a message log
  (`sent`);
- the entropy estimator is a function given when the channel is built.

## Model

| member | source | states |
|---|---|---|
| Hilbert.Rot | senses/rwstat.c:84-96 | hilbert_rot keeps a point of the n-by-n square inside it |
| Hilbert.RotInvolution | senses/rwstat.c:84-96 | rotating twice with the same rx, ry gives the point back |
| Hilbert.Lift | senses/rwstat.c:104-108 | one round of the d2xy loop takes a point of the s-square into the 2s-square |
| Hilbert.LiftDigit | senses/rwstat.c:104-105 | a round depends only on the low base-4 digit of t |
| Hilbert.LiftUnlift | senses/rwstat.c:104-108 | every point of the 2s-square is the image of a round, from a point of the s-square and a digit |
| Hilbert.UnliftLift | senses/rwstat.c:104-108 | the digit and the point a round came from are recovered from its result |
| Hilbert.LiftInjective | senses/rwstat.c:104-108 | two rounds with the same result had the same digit and the same starting point |
| Hilbert.Curve | senses/rwstat.c:98-111 | the curve of level k lies in the 2^k by 2^k square |
| Hilbert.CurveInjective | senses/rwstat.c:98-111 | two indices with the same curve point agree modulo 4^k |
| Hilbert.CurveLow | senses/rwstat.c:98-111 | indices that agree modulo 4^k have the same curve point (digits above k are ignored) |
| Hilbert.CurveOnto | senses/rwstat.c:98-111 | every point of the square is the curve point of some index below 4^k |
| Hilbert.CurveBijection | senses/rwstat.c:98-111 | the curve is a bijection from 0..4^k-1 onto the 2^k square: in range, injective and surjective |
| Hilbert.LevelsOfPow2 | senses/rwstat.c:103 | for n = 2^k the loop `s = 1; s < n; s *= 2` runs exactly k rounds |
| Hilbert.CurveStep | senses/rwstat.c:103-110 | level k+1 is one more round applied to level k with t divided by 4^k |
| Hilbert.D2xy | senses/rwstat.c:98-111 | the loop returns the curve point of d at the level of n |
| Hilbert.D2xyRound | senses/rwstat.c:104-108 | one loop body computes one round |
| Hilbert.Trunc16 | senses/rwstat.c:464-465 | a store into a uint16_t keeps the value when it fits and lies in 0..65535 |
| Hilbert.TableEntry | senses/rwstat.c:459-467 | for a side of at most 2^15, entry i of the LUT is the curve point of i |
| Hilbert.CellOf | senses/rwstat.c:464-465 | cell 2i+b holds the x (b = 0) or y (b = 1) coordinate of point i, truncated to 16 bits |
| Hilbert.CurveTable | senses/rwstat.c:459-467 | the LUT has 2 * base^2 entries, each a uint16 value |
| Hilbert.TableBijection | senses/rwstat.c:457-468 | for a power-of-two side of at most 2^15 the LUT entries lie in the grid, are pairwise distinct, and cover every cell |
| Histogram.AddAll | senses/rwstat.c:113-117 | bumping buckets keeps every bucket a uint32 |
| Histogram.Bump | senses/rwstat.c:116 | `hgram[b]++` (also at line 368) adds one to bucket b modulo 2^32 and leaves every other bucket as it was |
| Histogram.AddAllCount | senses/rwstat.c:113-117 | bucket v ends as its old value plus the number of v bytes, modulo 2^32: counts add on top |
| Histogram.AddAllAppend | senses/rwstat.c:367-368 | counting s then t is counting s followed by t |
| Histogram.AddAllTwice | senses/rwstat.c:315-316 | counting a and then b adds both counts to each bucket |
| Histogram.Normalized | senses/rwstat.c:148-158 | hnorm yields a table again |
| Histogram.Scale | senses/rwstat.c:156 | one scaled bucket is a uint8_t value, 0..255 |
| Histogram.ScaleNoWrap | senses/rwstat.c:155-156 | a bucket no larger than the total scales to floor(255 * x / acc) with no wrap from the uint8_t cast, and a bucket equal to the total scales to 255 |
| Histogram.NormalizedZero | senses/rwstat.c:154 | an all-zero table is left as it is |
| Histogram.NormalizedValue | senses/rwstat.c:150-157 | with a total in 1..2^32-1 each bucket becomes floor(255 * h / total), at most 255 |
| Histogram.NormalizedMonotone | senses/rwstat.c:155-156 | normalisation keeps the order of buckets |
| Histogram.RebuildHgram | senses/rwstat.c:113-117 | the loop leaves the table counted on top by every byte of the window |
| Histogram.Hnorm | senses/rwstat.c:148-158 | the two loops leave the normalised table, with the total wrapping as a uint32 |
| Patterns.Feed | senses/rwstat.c:246-255 | feeding a byte to one pattern changes only that pattern's progress and counter, and never its definition |
| Patterns.Put | senses/rwstat.c:244 | `alpha[i] = av` sets cell i when it lies in the table and leaves every other cell |
| Patterns.Paint | senses/rwstat.c:250 | the memset gives v to the cells of the span that lie in the table and leaves every other cell; the table keeps its length |
| Patterns.FeedCases | senses/rwstat.c:247-255 | a mismatch changes nothing; a match advances; a completed match resets progress, paints the span, sets the default opacity for a state pattern and counts an event pattern |
| Patterns.FeedAll | senses/rwstat.c:245-256 | feeding patterns j.. leaves the later ones untouched |
| Patterns.Visit | senses/rwstat.c:243-256 | one window position keeps the pattern definitions and the alpha length |
| Patterns.ScanTo | senses/rwstat.c:242-258 | the scan keeps the pattern definitions and the alpha length |
| Patterns.Reset | senses/rwstat.c:235-238 | every progress counter and event counter is zeroed, definitions kept |
| Patterns.Cleared | senses/rwstat.c:273 | event counters are zeroed, progress kept |
| Patterns.PtnAlpha | senses/rwstat.c:226-275 | the pass keeps the alpha length and definitions, leaves every counter zero, and with no patterns paints everything 0xff and reports nothing |
| Patterns.NotesExact | senses/rwstat.c:264-274 | the notifications come one each from the patterns with a non-zero count, as many as Firing counts, each carrying its pattern's id and count, in increasing pattern index; every such pattern is reported; none when all counts are zero |
| Patterns.Firing | senses/rwstat.c:266 | the number of patterns with a non-zero count is at most the number of patterns |
| Patterns.NotesSnoc | senses/rwstat.c:265-273 | one more pattern adds its notification after the others exactly when its count is non-zero |
| Patterns.SourcesNotes | senses/rwstat.c:265-273 | every pattern with a non-zero count has its notification among the notes |
| Patterns.ProgressBound | senses/rwstat.c:247-248 | after i bytes no pattern's progress exceeds i |
| Patterns.FeedAllBound | senses/rwstat.c:247-248 | one byte advances any progress by at most one |
| Patterns.CorrectedSpanInWindow | senses/rwstat.c:248-250 | with the corrected start, a match completing at i paints only positions 0..i |
| Patterns.FeedAllAfter | senses/rwstat.c:245-246 | once pattern j has seen a byte, the patterns after it leave pattern j as it is |
| Patterns.VisitAdvances | senses/rwstat.c:247-248 | a pattern whose next byte matches, without completing, advances by one at that position |
| Patterns.ScanAdvances | senses/rwstat.c:242-248 | the same for the pass's step over one window position |
| Patterns.OccurrenceProgress | senses/rwstat.c:242-248 | over window bytes that spell the first m bytes of a pattern, begun at progress 0, the progress reaches m |
| Patterns.OccurrenceReaches | senses/rwstat.c:242-248 | a contiguous occurrence ending at i brings its pattern to progress len - 1 at i, waiting for buf[i] |
| Patterns.OccurrenceCompletes | senses/rwstat.c:242-249 | that occurrence completes at i when its pattern's turn comes |
| Patterns.CorrectedPaintsOccurrence | senses/rwstat.c:248-250 | with the corrected start, a contiguous occurrence ending at i paints exactly its own cells i + 1 - len .. i and no others |
| Patterns.AsWrittenPaintsOccurrence | senses/rwstat.c:248-250 | as written, the same occurrence paints cells i - len .. i - 1 and no others: the cell before it, not its last byte |
| Patterns.CountNeedsEvent | senses/rwstat.c:253-254 | a pattern without FLAG_EVENT never changes its count during the scan |
| Patterns.VisitKeepsCount | senses/rwstat.c:253-254 | the same for one position |
| Patterns.FeedAllKeepsCount | senses/rwstat.c:253-254 | the same for one byte fed to all patterns |
| Patterns.NotesNeedEvent | senses/rwstat.c:264-274 | every notification comes from a pattern with FLAG_EVENT |
| Patterns.DefaultOpacity | senses/rwstat.c:228-252 | the running default opacity stays 0xff or is the alpha of some FLAG_STATE pattern |
| Patterns.ScanOpacity | senses/rwstat.c:243-252 | one more position keeps the default or sets it to a state pattern's alpha |
| Patterns.VisitOpacity | senses/rwstat.c:245-252 | the same for one position's pattern loop |
| Patterns.FeedAllOpacity | senses/rwstat.c:245-252 | the same for patterns j.. |
| Patterns.DeAdScan | senses/rwstat.c:242-258 | the scan of 00 DE AD with the pattern DE AD paints the span the start rule gives, and leaves the pattern reset |
| Patterns.PaintOffByOne | senses/rwstat.c:250 | as written, the match of DE AD in 00 DE AD paints cells 0 and 1 instead of 1 and 2 |
| Patterns.PaintUnderflow | senses/rwstat.c:250 | as written, a match completing at position len-1 starts painting at -1 |
| Patterns.PaintSpan | senses/rwstat.c:250 | the memset paints the span that lies inside the table and nothing else |
| Patterns.FeedPattern | senses/rwstat.c:246-255 | the array body for one pattern computes Feed, painting the span as written from i - len |
| Patterns.VisitPosition | senses/rwstat.c:243-256 | the array body for one position computes Visit with the span as written |
| Patterns.FeedStep | senses/rwstat.c:245-256 | one iteration of the inner loop advances FeedAll, with the span as written, by one pattern |
| Patterns.UpdatePtnAlpha | senses/rwstat.c:226-275 | the arrays end as PtnAlpha with the span as written gives, and the returned notifications are its notes |
| Patterns.ResetPatterns | senses/rwstat.c:235-238 | the reset loop computes Reset on the patterns in use and leaves the rest |
| Patterns.ScanWindow | senses/rwstat.c:242-258 | the scan loop computes ScanTo with the span as written over the whole window from opacity 0xff |
| Patterns.ScanStep | senses/rwstat.c:243-257 | one iteration of the scan loop advances ScanTo, with the span as written, by one position |
| Patterns.ReportCounts | senses/rwstat.c:264-274 | the report loop returns Notes and clears the counters |
| Dispatch.Decode | senses/rwstat.c:559-608 | a command comes out exactly for a GRAPHMODE event with a known selector, and that selector is the command's |
| Dispatch.SelectorRoundTrip | senses/rwstat.c:564-600 | each command's selector is known and decodes back to the command |
| Dispatch.SelectorInjective | senses/rwstat.c:564-600 | no two commands share a selector |
| Control.Apply | senses/rwstat.c:564-600 | each command calls its ch_* operation; reclock changes only the clock, alpha only the mode and table, and pack and map set their mode |
| Control.ConsumeSpec | senses/rwstat.c:559-608 | the event is consumed exactly when it is a GRAPHMODE event with a known selector; otherwise the channel is unchanged |
| Control.ConsumeSelector | senses/rwstat.c:564-600 | the event of a command's selector applies that command |
| Control.ConsumeDecodes | senses/rwstat.c:559-608 | a consumed event is the selector of a command, and consuming it applies that command |
| Control.PackAnnouncedOnStep | senses/rwstat.c:304-313 | after ch_pack the next step announces '0' + the new packing |
| Control.AddPatternSpec | senses/rwstat.c:383-410 | the pattern array grows by 8 when full; slot n gets the new definition, earlier slots are kept and fresh slots are zero |
| Control.AddPatternFresh | senses/rwstat.c:397-407 | a new pattern starts with no progress and no count |
| Control.StepKeepsSpare | senses/rwstat.c:235-245 | a step touches only the patterns in use |
| Control.Fresh | senses/rwstat.c:688-692 | the zeroed channel has an empty histogram, no patterns and no messages |
| Control.InitSpec | senses/rwstat.c:681-718 | rwstat_addch leaves a valid channel in the entropy alpha mode, with a zeroed window of side w, modes marked changed and the stream info sent |
| Control.TickSpec | senses/rwstat.c:412-415 | ch_tick steps: the frame status is reported, the counter marked and the window kept |
| Engine.PackSize | senses/rwstat.c:31-36 | a sample takes 1 to 4 bytes |
| Engine.Footprint | senses/rwstat.c:427-435 | the per-sample footprint is at least one byte |
| Engine.Samples | senses/rwstat.c:325-326 | the step packs exactly base^2 samples |
| Engine.CoordAt | senses/rwstat.c:167-183 | wrap: a grid point (x, y) with x, y < base; tuple: the sample's first two bytes; hilbert: the LUT pair at 2 * ofs |
| Engine.PixelAt | senses/rwstat.c:185-201 | tight takes four sample bytes including alpha; every other packing takes the alpha table's cell; tnoalpha takes three colour bytes; intens and hintens are grey, from the byte or from its histogram bucket cast to uint8_t; the tuple mapping skips the two coordinate bytes |
| Engine.EntAlpha | senses/rwstat.c:210-220 | the entropy alpha table has one byte per cell |
| Engine.Announce | senses/rwstat.c:286-313 | the frame status (cnt_local, cnt_total) is sent first, then the stream info exactly when the modes are dirty; dirty is cleared |
| Engine.Langid | senses/rwstat.c:308-310 | the stream info's langid is three characters: the packing and mapping codes as digits, then '0' + pack_sz, a digit when pack_sz <= 9 |
| Engine.Refresh | senses/rwstat.c:315-319 | only the histogram changes |
| Engine.AlphaStage | senses/rwstat.c:320-323 | only the alpha table, pattern state and messages change, full opacity changes nothing, and the pattern mode paints as the source writes it |
| Engine.Emit | senses/rwstat.c:325-336 | the frame of the window's samples is sent, cnt_local becomes cnt_total, and a clear follows exactly for the tuple mapping |
| Engine.StepSpec | senses/rwstat.c:282-337 | a step keeps the modes, window and offset, leaves the modes announced and the counter reported, and only appends messages |
| Engine.StepReports | senses/rwstat.c:286-336 | a step sends the frame status first, the stream info next when dirty, and ends with a clear under the tuple mapping |
| Engine.StepHistogram | senses/rwstat.c:315-319 | a step counts the window on top of the histogram under the sliding clock, and normalises it for histogram intensity |
| Engine.StepKeepsAlpha | senses/rwstat.c:320-323 | under full opacity a step leaves the alpha table alone |
| Engine.PackSpec | senses/rwstat.c:422-442 | ch_pack sets the packing and its footprint and marks the modes dirty; it keeps the window when it still fits and zeroes it when it is resized |
| Engine.Blank | senses/rwstat.c:539-546 | the resized buffers: base^2 samples of pack_sz zero bytes and an opaque alpha table |
| Engine.ResizeSpec | senses/rwstat.c:525-552 | ch_resize leaves a valid channel of the new side with a zeroed window and the modes announced |
| Engine.Remap | senses/rwstat.c:444-468 | ch_map's first part sets the mapping and the LUT for it |
| Engine.LutFor | senses/rwstat.c:457-468 | the Hilbert mapping gets a LUT of 2 * base^2 uint16 entries; wrap and tuple get none |
| Engine.Flush | senses/rwstat.c:475-482 | the output is cleared exactly for the tuple mapping, and the modes are marked dirty |
| Engine.Settle | senses/rwstat.c:475-483 | after the flush the step announces the new modes, so dirty ends false |
| Engine.MapSpec | senses/rwstat.c:444-484 | ch_map sets the mapping, keeps the other modes, and sends the stream info of the new modes; dirty ends false |
| Engine.AlphaSpec | senses/rwstat.c:486-491 | ch_alpha sets the mode; full opacity makes the whole table 0xff, the other modes keep it |
| Engine.ReclockSpec | senses/rwstat.c:493-498 | ch_reclock changes only the clock and does not step |
| Engine.WindSpec | senses/rwstat.c:554-557 | ch_wind sets only cnt_total, wrapping to a size_t |
| Engine.LeftSpec | senses/rwstat.c:520-523 | ch_left is the room left in the window, as a size_t |
| Engine.Taken | senses/rwstat.c:352-363 | the bytes taken never exceed the write, nor the window (slide) or the room left (block) |
| Engine.Store | senses/rwstat.c:367-370 | the copy loop's stores, one byte at a time at buf_ofs++, leave the window as its bytes before the offset, then the bytes written, then the rest of the old window |
| Engine.Slid | senses/rwstat.c:356 | the memmove moves the window's last len - t bytes to its start and leaves its last t bytes as they were |
| Engine.Admitted | senses/rwstat.c:352-363 | making room changes only the window and offset, leaving room for the bytes taken |
| Engine.Absorbed | senses/rwstat.c:367-370 | the copy loop changes only the histogram, the window and the offset, which advances by the bytes copied |
| Engine.Ingest | senses/rwstat.c:352-370 | ingest counts the taken bytes on top of the histogram and moves them into the window |
| Engine.DataSpec | senses/rwstat.c:344-381 | ch_data takes the bytes it can, and steps (resetting the offset) exactly under the sliding clock or when the window fills; otherwise nothing is sent |
| Engine.MovedBlock | senses/rwstat.c:361-370 | in block mode the window keeps its bytes before and after the written span |
| Engine.DataBlock | senses/rwstat.c:361-378 | block-mode ingest takes min(write, room), writes it at the offset, and steps exactly when the write fills the window |
| Engine.DataBlockPartial | senses/rwstat.c:361-378 | a block write that does not fill the window counts its bytes, advances the offset and sends nothing |
| Engine.MovedSlide | senses/rwstat.c:352-370 | in slide mode the window is the old window followed by the write, less its first t bytes |
| Engine.DataSlide | senses/rwstat.c:352-376 | slide-mode ingest takes min(write, window), slides the window by it and always steps |
| Engine.SlideCountsTwice | senses/rwstat.c:366-368 | under the sliding clock a short write's bytes are counted once on arrival and once more by the step's rebuild |
| Engine.LeftFills | senses/rwstat.c:520-523 | writing exactly ch_left bytes in block mode takes them all and steps |
| Raster.RowMajor | senses/rwstat.c:168-170 | the wrap mapping's x = ofs % base and y = ofs / base are in the grid and recompose ofs |
| Raster.RowMajorCell | senses/rwstat.c:168-170 | the cell of a grid point under the wrap mapping gives that point back |
| Raster.WrapInGrid | senses/rwstat.c:168-171 | each sample of the wrap mapping lands in the grid |
| Raster.WrapCovers | senses/rwstat.c:168-171 | every grid cell receives a sample of the wrap mapping |
| Raster.WrapInjective | senses/rwstat.c:168-171 | no two samples of the wrap mapping land on the same cell |
| Raster.HilbertCoord | senses/rwstat.c:179-182 | the Hilbert mapping reads entry ofs of the LUT |
| Raster.HilbertCovers | senses/rwstat.c:179-182 | for a power-of-two side of at most 2^15 the Hilbert mapping puts every sample in the grid, one per cell, covering all cells |
| Channels.Memset | senses/rwstat.c:218 | memset writes v into the span and keeps the rest |
| Channels.UpdateEntAlpha | senses/rwstat.c:210-220 | the loop fills each row of the alpha table with the entropy of its block of the window |
| Channels.BuildLut | senses/rwstat.c:459-467 | the LUT loop builds the Hilbert table of the side |
| Channels.PutEntry | senses/rwstat.c:463-465 | one iteration stores the truncated curve point of i and keeps every other cell |
| Channels.Grow | senses/rwstat.c:387-399 | realloc keeps the patterns and appends 8 zeroed slots |
| Channels.Shift | senses/rwstat.c:355-356 | the memmove slides the window left by t bytes |
| Channels.CopyIn | senses/rwstat.c:367-370 | the copy loop counts each byte into the histogram and stores it at the offset |
| Channels.Channel.constructor | senses/rwstat.c:681-718 | the new channel is rwstat_addch's |
| Channels.Channel.Step | senses/rwstat.c:282-337 | the channel ends in StepSpec of its old state |
| Channels.Channel.Report | senses/rwstat.c:286-313 | the frame status and stream info are sent as Announce gives |
| Channels.Channel.RefreshHistogram | senses/rwstat.c:315-319 | the histogram is refreshed as Refresh gives |
| Channels.Channel.UpdateAlpha | senses/rwstat.c:320-323 | the alpha stage runs as AlphaStage gives |
| Channels.Channel.EntStage | senses/rwstat.c:320-321 | the entropy alpha stage runs as AlphaStage gives |
| Channels.Channel.PtnStage | senses/rwstat.c:322-323 | the pattern alpha stage runs as AlphaStage gives |
| Channels.Channel.ScanPatterns | senses/rwstat.c:226-275 | the pattern pass on the channel's arrays computes PtnAlpha with the span as written |
| Channels.Channel.SendNotes | senses/rwstat.c:264-274 | the notifications are appended to the message log |
| Channels.Channel.PackBytes | senses/rwstat.c:160-204 | the sample for offset ofs has the coordinate and pixel that CoordAt and PixelAt give |
| Channels.Channel.Locate | senses/rwstat.c:167-183 | the mapping switch gives the coordinate and the offset of the pixel bytes |
| Channels.Channel.Shade | senses/rwstat.c:185-201 | the packing switch gives the pixel |
| Channels.Channel.Render | senses/rwstat.c:325-326 | the packing loop produces the window's samples |
| Channels.Channel.PackNext | senses/rwstat.c:325-326 | one iteration of the packing loop adds the next sample |
| Channels.Channel.Publish | senses/rwstat.c:325-336 | the frame is sent, cnt_local set and the output flushed as Emit gives |
| Channels.Channel.SetPacking | senses/rwstat.c:422-442 | the channel ends in PackSpec of its old state |
| Channels.Channel.Refit | senses/rwstat.c:438-441 | the resize check and the dirty mark run as Refitted gives |
| Channels.Channel.SetFootprint | senses/rwstat.c:425-435 | the packing and its footprint are set |
| Channels.Channel.MarkDirty | senses/rwstat.c:441 | only the dirty mark is set |
| Channels.Channel.Resize | senses/rwstat.c:525-552 | the channel ends in ResizeSpec of its old state |
| Channels.Channel.Reallocate | senses/rwstat.c:528-548 | new zeroed window and opaque alpha table of the new side, as Blank gives |
| Channels.Channel.Install | senses/rwstat.c:541-542 | the fresh buffers take the place of the old ones |
| Channels.Channel.SetBase | senses/rwstat.c:546 | only the side changes |
| Channels.Channel.SetMapping | senses/rwstat.c:444-484 | the channel ends in MapSpec of its old state |
| Channels.Channel.Settle | senses/rwstat.c:475-483 | flush and step as Engine.Settle gives |
| Channels.Channel.Relut | senses/rwstat.c:447-468 | the mapping and its LUT are set as Remap gives |
| Channels.Channel.Adopt | senses/rwstat.c:467 | the mapping and the new LUT take the place of the old ones |
| Channels.Channel.Flush | senses/rwstat.c:475-482 | the output is flushed and the modes marked as Engine.Flush gives |
| Channels.Channel.SetAlpha | senses/rwstat.c:486-491 | the channel ends in AlphaSpec of its old state |
| Channels.Channel.SetClock | senses/rwstat.c:493-498 | the channel ends in ReclockSpec of its old state |
| Channels.Channel.Wind | senses/rwstat.c:554-557 | the channel ends in WindSpec of its old state |
| Channels.Channel.Left | senses/rwstat.c:520-523 | returns LeftSpec of the channel |
| Channels.Channel.Tick | senses/rwstat.c:412-415 | the channel ends in TickSpec of its old state |
| Channels.Channel.Data | senses/rwstat.c:344-381 | the channel, the bytes taken and the step flag are those DataSpec gives |
| Channels.Channel.TakeIn | senses/rwstat.c:352-370 | the window and histogram are as Ingest gives, and ntw is the bytes taken |
| Channels.Channel.Admit | senses/rwstat.c:352-363 | the room for the write is made as Admitted gives |
| Channels.Channel.Absorb | senses/rwstat.c:367-370 | the bytes are copied and counted as Absorbed gives |
| Channels.Channel.AddPattern | senses/rwstat.c:383-410 | the channel ends in AddPatternSpec of its old state |
| Channels.Channel.Enlarge | senses/rwstat.c:387-399 | the pattern array grows by 8 zeroed slots |
| Channels.Channel.Occupy | senses/rwstat.c:401-407 | slot n takes the new definition and n grows by one |
| Channels.Channel.Consume | senses/rwstat.c:559-608 | the channel and the consumed flag are those ConsumeSpec gives |

## Left out

- The entropy estimators `shent` and `shent_h` use floating point.  The
  per-row alpha of `update_entalpha` is therefore the value of an entropy
  function `ent`, given when the channel is built, applied to the row's
  block.  The `fhint` field of the frame status is not modelled.
- The `acquired` timestamp (`arcan_timemillis`) is a clock and is not
  part of the frame status message.
- The tuple mapping's float scale factors `sf_x` and `sf_y` are not
  modelled.  A tuple sample carries its two raw coordinate bytes
  (`Coord.Scatter`) instead of a scaled pixel position.
- The shared-memory segment is not modelled.  Frame writes, the
  `SHMIF_SIGVID` signal, the tuple clear and the enqueued events are
  entries of the message log `sent`, in the order they happen.
- Histogram.Scale: hnorm's float division is taken as exact integer
  floor division, so float rounding is not modelled.
- Histogram.NormalizedValue: stated only when the bucket total fits in
  32 bits.  The model keeps the wrapped total, but the lemma says nothing
  about a total that wrapped.
- `rwstat_addpatterns` is not part of this model.  It parses pattern
  files and calls `ch_pattern`, which is modelled.
- `ch_free`, `ch_rowsz`, `ch_context` and `ch_event` are not modelled:
  deallocation, a product of two fields, an accessor and forwarding to
  the segment.  Allocation failure (a NULL from malloc or realloc, and
  the early return of `rwstat_addch` without a segment) is not modelled.
- Patterns.PaintSpan: the pattern pass visits all `buf_sz` bytes, but
  the alpha table has only `base * base` cells.  With `pack_sz > 1` the
  source writes past the table's end, and the model drops those writes.
- Engine.DataSpec: requires the offset to lie within the window (and to
  be zero for a long slide write).  `ch_resize` does not reset `buf_ofs`,
  so the source would write out of bounds otherwise.
- Control.AddPatternSpec: requires a non-empty pattern.  The scan reads
  `ptn->buf[buf_pos]`, which an empty pattern would overrun.
- Hilbert.D2xy: `int` arithmetic is unbounded, so it does not model
  overflow of the `int` index `d` for sides above 2^15 (`Hilbert.MaxSide`).
- Hilbert.TableEntry: stated only for sides up to 2^15, where `d` and the
  uint16 coordinates cannot overflow.
- Hilbert.TableBijection: stated only for sides up to 2^15, for the same
  reason.
- Raster.HilbertCovers: stated only for sides up to 2^15, for the same
  reason.
- Patterns.Paint: a memset that starts before the table (a match that
  completes at position len - 1 writes `alpha[-1]`) has its write to
  the cell before the table dropped; the memory there is not modelled.
- Channels.Channel.constructor: does not state that the new arrays are
  fresh beyond the footprint invariant.
- Channels.Channel.Consume: states the new abstract state, not which
  arrays were replaced.
- Control.ConsumeSpec: the `default` case of `rwstat_consume_event`
  also prints a diagnostic to stderr (senses/rwstat.c:602-603).  That
  output is not modelled; only the unconsumed result is.
- The numeric codes of the mode enumerations are assumed, because
  `rwstat.h`, which defines them, is not part of this model.  The pack
  codes follow the order of `pack_sizes` (senses/rwstat.c:30-36), the
  clock's `Slide` code 1 follows the test at senses/rwstat.c:315, and
  the alpha code `Full` = 0 follows senses/rwstat.c:489.  The rest are
  assumed in declaration order: `Block` = 0, `Wrap` = 0, `Tuple` = 1,
  `Hilbert` = 2, `Ptn` = 1 and `EntBase` = 2.  They matter only in the
  mode announcement of the step, which prints them as digits.

After `ch_map` the modes are not left marked as changed, although
`ch_map` marks them: it sets `status_dirty` at senses/rwstat.c:482 and
steps at line 483, and the step announces the modes and clears the mark
at line 311.  Engine.MapSpec therefore ensures `!r.dirty`.  `ch_pack`
alone leaves the mark set.

## Findings

| source | as written | input that shows it | evidently intended | confidence | as-written member | corrected member |
|---|---|---|---|---|---|---|
| senses/rwstat.c:250 | a match completing at window position i paints `alpha[i - buf_sz .. i - 1]`: the span one before the matched bytes, which starts at -1 when the match ends at position buf_sz - 1 | window 00 DE AD, pattern DE AD: cells 0 and 1 are painted instead of 1 and 2; window DE AD: the memset starts at alpha[-1] | `memset(&chp->alpha[i + 1 - ptn->buf_sz], ...)`: for a contiguous occurrence of the pattern ending at i, begun where its progress is 0, the span painted is exactly the occurrence's cells; a match can also complete over non-adjacent bytes, since a mismatch does not reset the progress, and the span then starts no earlier than cell 0 | high (not executed) | Patterns.AsWrittenPaintsOccurrence | Patterns.CorrectedPaintsOccurrence |

The rest of the model paints the span as written: `Patterns.PtnAlpha`,
the array methods, `Engine.AlphaStage` and the channel class all use
`AsWritten`, and drop the cell before the table when the span starts at
-1.  `Corrected` appears only in the lemmas that state the intended
property.  `Patterns.PaintOffByOne`, `Patterns.PaintUnderflow` and
`Patterns.DeAdScan` give the concrete windows.
