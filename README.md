# gifcolormap: the palette splice and its command line, in Dafny

gifcolormap adds caller-chosen RGB colours to the global colormap of a GIF
image. Each `-add-color r,g,b` request is taken in command-line order. The
first request goes with the last slot (N-1), the second with slot N-2, and so
on. A request whose colour already occurs anywhere in the map is skipped and
counted in `dupcount`. The check covers the whole map as it stands, including
colours written earlier in the same pass. Any other request is written at its
base slot plus `dupcount`. So the written colours fill consecutive slots
downward from N-1, with no gaps left by the skipped ones.

The project models:

- `palette.dfy` (module `Palette`): the colour record, and the splice pass.
  The pass is written as the source's loop over an `array<Color>`, with the
  same variables `i`, `j`, `dupcount` and `target_i`. It is proved against a
  reference description:
  - `Placed`: the requests that get written, in request order.
  - `Skipped`: the requests that are skipped.
  - `Current(m, w)`: the map after the colours `w` have been written, with
    `w[q]` in slot N-1-q and every lower slot as it was.
  - Lemmas state what the source promises about this description: no gaps,
    nothing else changes, `dupcount + W = K`, written colours are distinct,
    and the worked traces.
- `args.dfy` (module `Args`): the argument scan, the count checks of `main`,
  the pairing of each flag with the argument after it, and the two paths.
- `gifcolormap.dfy` (module `GifColormap`): `Run` chains the argument
  selection, the empty-colormap check and the splice, with the exit status.

Two consequences of the code worth stating:

- The pass goes out of bounds only when a write index falls below 0. That
  happens only when more than N requests would be written. A duplicate
  request met while the base slot `i` is already negative writes nothing, so
  it is harmless. `addcolors[j]` is always in bounds, because `j < K`. The
  precise precondition of `SplicePass` is therefore `|Placed| <= N`, not
  `K <= N`. `FitsWhenFewRequests` shows that `K <= N` is enough, and
  `OverflowReachesSlotMinusOne` shows that whenever more than N colours would
  be written, some write index is -1. So more requests than slots are
  harmless when enough of them are duplicates (`DuplicatesBeyondCapacityFit`).
- A request is skipped by comparing it with the map at the moment it is
  examined. A later write can still overwrite the slot that matched it
  (`SkippedColorCanBeOverwritten`), and the same colour requested again
  is then written (`SkippedColorWrittenLater`). So running the pass twice with the same
  requests need not leave the map unchanged.

## Model

| member | source | states |
|---|---|---|
| `Palette.ColorExists` | src/gifcolormap.c:313-326 | the inner scan answers true exactly when the request equals, in all three channels, some entry of the map as it currently stands |
| `Palette.SplicePass` | src/gifcolormap.c:305-343 | the loop as written, with base slot `i = N-1-j` and write index `i + dupcount`, leaves the map equal to the reference `Spliced` and returns `dupcount` equal to the number of skipped requests; it is defined whenever at most N requests get written |
| `Palette.AddColors` | src/gifcolormap.c:307-343 | the pass behind a check that at most N colours would be written, which is exactly when the source's writes stay in the map: on success the map is `Spliced` and `dupcount` counts the skips; otherwise the map is unchanged |
| `Palette.PlacedSkippedSplit` | src/gifcolormap.c:328-342 | every request is either written or skipped: the counts add up to K (`dupcount + W = K`), and the two lists together are, as a multiset, the requests |
| `Palette.PlacedGrows` | src/gifcolormap.c:335-342 | the colours written after the first j requests are a prefix of those written in the end; a written slot is never given back |
| `Palette.TargetSlotIsNextFree` | src/gifcolormap.c:308-337 | `0 <= dupcount <= j` at request j, and `i + dupcount = N-1-j + dupcount` equals N-1 minus the number already written: the m-th written colour lands in slot N-1-m |
| `Palette.CurrentMembers` | src/gifcolormap.c:313-326 | the duplicate scan over the whole current map finds a colour exactly when it is an untouched entry below the written region or one of the colours written so far |
| `Palette.CurrentWrite` | src/gifcolormap.c:337-341 | writing the next colour into slot N-1-W of the current map extends the written region by one slot at its low end, and changes no other slot |
| `Palette.PlacedStep` | src/gifcolormap.c:315-342 | request j is written exactly when it is missing from the current map, and skipped otherwise; nothing else decides |
| `Palette.PassSkipStep` | src/gifcolormap.c:328-333 | a request found in the current map writes nothing and adds one to `dupcount` |
| `Palette.PassWriteStep` | src/gifcolormap.c:335-341 | a request missing from the current map is written at `N-1-j + dupcount`, a slot inside the map when at most N requests get written, and `dupcount` is unchanged |
| `Palette.FitsWhenFewRequests` | src/gifcolormap.c:309-337 | with K <= N every write index is at least 0 |
| `Palette.PlacedDistinct` | src/gifcolormap.c:313-341 | the written colours are pairwise distinct, because a written colour is in the map that later requests are checked against |
| `Palette.SkippedWerePresent` | src/gifcolormap.c:315-333 | when request j is skipped, it equals an original entry in a slot not yet overwritten or a colour written by one of the requests before j |
| `Palette.AllPresentLeavesMapUnchanged` | src/gifcolormap.c:330-333 | when every request is already in the map, all are skipped, `dupcount = K`, and the map is unchanged |
| `Palette.FreshRequestsAllPlaced` | src/gifcolormap.c:313-341 | requests that are pairwise distinct and absent from the map are all written, none skipped, whatever their number |
| `Palette.FreshRequestsFillTail` | src/gifcolormap.c:309-341 | K <= N requests, pairwise distinct and absent from the map: all are written, and slots N-K..N-1 hold them in reverse request order |
| `Palette.SingleSlotReplaced` | src/gifcolormap.c:309-341 | a one-colour map with one new colour requested ends holding just that colour |
| `Palette.WorkedExample` | src/gifcolormap.c:308-343 | map [(0,0,0),(255,0,0),(0,255,0),(0,0,255)] with requests (255,0,0), (10,10,10) ends as [(0,0,0),(255,0,0),(0,255,0),(10,10,10)] with `dupcount` 1 |
| `Palette.SkippedColorCanBeOverwritten` | src/gifcolormap.c:315-341 | map [A,B,C] with requests C, X: C is skipped, X overwrites slot 2, and C is no longer in the map |
| `Palette.SkipThenWrite` | src/gifcolormap.c:315-341 | a colour already in the map followed by a new one: the first is skipped and only the second is written |
| `Palette.SkippedColorWrittenLater` | src/gifcolormap.c:309-341 | map [A,B,C] with requests C, X, C: the first C is skipped, X overwrites slot 2, and the second C, now missing, is written at slot 1, ending [A,C,X] |
| `Palette.TooManyRequestsWriteBelowSlotZero` | src/gifcolormap.c:308-341 | with two slots and three new colours, the third finds the map full, is paired with base slot -1 and `dupcount` 0, so it is written at slot -1 |
| `Palette.WritesBelowSlotZeroInPrefix` | src/gifcolormap.c:308-341 | an out-of-map write met while running a prefix of the requests is met, at the same request, when running them all: later requests do not change what happened before them |
| `Palette.LastRequestWritesBelowSlotZero` | src/gifcolormap.c:315-341 | when the requests before the last have filled the map and the last is written all the same, it is missing from the full map and its write index `i + dupcount` is -1 |
| `Palette.OverflowReachesSlotMinusOne` | src/gifcolormap.c:308-341 | whenever more than N colours would be written, some request finds the map full, is missing from it and is written at index -1; the bound on `SplicePass` is exactly the condition for in-bounds writes |
| `Palette.DuplicatesBeyondCapacityFit` | src/gifcolormap.c:309-343 | map [A, B] with requests A, B, A: more requests than slots, yet all are skipped, nothing is written and the map is unchanged |
| `Args.HasPrefix` | src/gifcolormap.c:195 | `strncmp(s, p, strlen(p)) == 0`, used here and for `--help` at line 178, holds exactly when `s` is at least as long as `p` and matches it character by character over the length of `p` |
| `Args.FlagsBelowAreFlags` | src/gifcolormap.c:193-198 | every position the scan records lies in argv[1..hi-1] and holds an argument starting with `-add-color` |
| `Args.FlagsBelowIncreasing` | src/gifcolormap.c:193-198 | the positions are recorded in command-line order, each once |
| `Args.FlagsBelowComplete` | src/gifcolormap.c:193-198 | no argument in argv[1..hi-1] that starts with `-add-color` is missed |
| `Args.ColorFlagsHaveValues` | src/gifcolormap.c:193-237 | since the scan stops before the last argument, every flag position is at least 1 and is followed by an argument, which the colour parse reads |
| `Args.PairedFlagCount` | src/gifcolormap.c:193-198 | a command line whose first k flag/value pairs alternate yields exactly k flag positions below argument 2k+1 |
| `Args.ColorOf` | src/gifcolormap.c:235-243 | the colour of a request: channel k is the k-th field the conversion produced, and a channel it did not produce stays at its initial value 0 (black) |
| `Args.CollectColorFlags` | src/gifcolormap.c:192-200 | the scan loop over argv[1..argc-2] collects exactly the `-add-color` positions, in command-line order |
| `Args.ScanColorFlagsFixed` | src/gifcolormap.c:192-200 | the scan into the 256-slot buffer counts every `-add-color` position, stores the first 256 in order, and overflows exactly when there are more than 256 |
| `Args.SelectArguments` | src/gifcolormap.c:176-249 | fewer than 5 arguments gives usage, noting whether argv[1] starts with `--help`; fewer than 2*count+3 arguments, or no colour flag, is rejected; otherwise the k-th colour is read from the argument after the k-th flag, and the input and output are the last two arguments |
| `Args.TooManyFlagsOverflowIndexBuffer` | src/gifcolormap.c:192-198 | 257 `-add-color` requests, each with a value, followed by two paths, pass every check of `main`, and the scan must store 257 positions |
| `GifColormap.Run` | src/gifcolormap.c:176-343 | status 1 with the map untouched for a rejected command line, an empty colour table or more new colours than slots; otherwise status 0 and the global map is the spliced one for the requested colours |

## Findings

| source | as written | input that shows it | evidently intended | confidence | as-written member | corrected member |
|---|---|---|---|---|---|---|
| src/gifcolormap.c:309-341 | the number of colours to write is never compared with the number of colormap slots; once N colours have been written, the next new colour goes to slot -1 | a two-colour map [(0,0,0),(255,255,255)] with `-add-color 255,0,0 -add-color 0,255,0 -add-color 0,0,255`: the third colour is written at slot -1 | no write outside the colormap: the program's header comment asks users to reserve enough trailing slots, and a run that would write more new colours than there are slots should fail instead | high; not executed | `Palette.TooManyRequestsWriteBelowSlotZero` (about `Palette.SplicePass`, with `Palette.OverflowReachesSlotMinusOne`) | `Palette.AddColors` (with `Palette.FitsWhenFewRequests` and `Palette.DuplicatesBeyondCapacityFit`) |
| src/gifcolormap.c:192-198 | `colors_input_indexes` has 256 slots, and `colors_input_indexes[number_colors_input++] = i` has no bound check | 257 pairs `-add-color 0,0,0` followed by the two paths (517 arguments) | every flag position stored without writing past the buffer, in a sequence that grows as needed | high; not executed | `Args.ScanColorFlagsFixed` (with `Args.TooManyFlagsOverflowIndexBuffer`) | `Args.CollectColorFlags` |

`Args.SelectArguments`, and through it `GifColormap.Run`, use the corrected
scan. `GifColormap.Run` uses the checked pass.

## Left out

- The record-by-record transcode loop (src/gifcolormap.c:369-489). It only
  forwards records through giflib's decode and encode calls, whose behaviour
  is not visible here.
- Opening and closing the files, writing the screen descriptor and forcing
  the GIF89 version (src/gifcolormap.c:96-119, 259-263, 345-367). These are
  I/O through giflib. `Run` takes the decoded global colour table as an
  array parameter.
- `cleanup_res` and `exitnow` (src/gifcolormap.c:121-153). These are
  resource release and process exit. A rejection is modelled as status 1.
- Building the colormap object with `GifMakeMapObject` (src/gifcolormap.c:265-289).
  This is foreign code. It is also what enforces the GIF table sizes (powers
  of two up to 256). No proof here needs the table size.
- The NULL colormap check (src/gifcolormap.c:278). An array reference is
  never null, so it has no counterpart. The source also dereferences
  `SColorMap` at line 270, before that check. Only the empty-table check
  (line 285) is modelled, in `Run`.
- The `sscanf("%hhu,%hhu,%hhu")` conversion (src/gifcolormap.c:237). This is
  libc. A `Scanner` parameter gives the fields it converted. Channels it did
  not convert stay 0 (`ColorOf`).
- The allocation of `addcolors` (src/gifcolormap.c:229). The requests are a
  sequence. The unchecked `malloc` failure is not modelled.
- Usage text, debug printing, the "found existing color" message, and the
  unused `trans_*` globals (src/gifcolormap.c:155-170, 202-213, 238-240,
  251-254, 323).
- Args.ScanColorFlagsFixed: where the source writes past the end of the
  256-slot buffer (undefined behaviour), the model writes nothing and sets
  `overflow` instead.
- Palette.SplicePass: the requests are a read-only sequence, not the
  malloc'd array. The pass only reads them.
