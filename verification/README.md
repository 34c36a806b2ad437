# Firmware tooling and host software: a Dafny model

This project models the parts of the FlashForge/Klipper firmware tree whose behaviour is
hard to see from the code, and proves what they promise:

- the **scatter LZ77 codec** (`tools/gd_scatter_compress.py`, `tools/scatterload.py`): token
  format, decoder, inspector, the four match finders and the lazy parser;
- **clock synchronisation** (`klipper/klippy/clocksync.py`): 64-bit clock extension, the
  weighted regression, and re-timing of secondary boards;
- **statistics** (`tools/check-gd-stats-model.py`, `klipper/klippy/mcu.py`): the five statistics
  words of the micro-controller and the host's reading of its reports;
- **g-code input** (`klipper/klippy/gcode.py`): the re-entrant line reader;
- **coverage inventory** (`tools/report-gd-progress.py`): conflicts and the exclusive partition;
- **configuration files** (`klipper/klippy/configfile.py`): autosave, duplicate fields, includes.

`dafny verify dfyconfig.toml` checks everything.

## How the model is laid out

Code that works by changing things is modelled by methods and classes with the same loops and
branches. Each is proved equal to a specification function, and the theorems are lemmas about
those functions: about every input, every run or every reachable state.

| files | content |
|---|---|
| `Bytes`, `Keys`, `Window` | lexicographic order, keys, and exhaustive search as the reference for all finders |
| `TokenFormat`, `Scatterload`, `Inspector`, `Streams` | the byte format, the decoder, the inspector, token streams |
| `ExhaustiveMatches`, `LexicographicMatches`, `BinaryTreeMatches`, `Compressor` | the finders and the encoder |
| `ClockSync`, `SecondarySync`, `Statistics`, `McuStats`, `Handshake` | clocks and statistics |
| `GCodeInput` | the line reader as a state machine and as an object |
| `Inventory`, `Intervals` | records, conflicts, partition, intervals |
| `Text`, `Stripping`, `Autosave`, `Duplicates`, `SaveConfig`, `Includes` | configuration text |

Conventions. Bytes are integers below 256; disjoint bit fields are added instead of or-ed, and
masks and shifts are remainders and quotients. Floating-point numbers are reals and `int()`
truncates toward zero. 32-bit words wrap or saturate where the code makes them. Exceptions are
`Result` values. The finders' key limit 0 stands for whole suffixes (Python's `None`). Clock
replies and their times, the files that a glob pattern matches, `has_option`, the hash function
and the behaviour of g-code handlers are parameters.

Observations that the proofs brought out. Each has the exact condition and an input on which it shows:

- The binary tree can miss the longest match once nodes have left the window: an expired key may
  lead the search away from it. It finds the longest length if and only if, for some longest match
  of the window, every key between that match's and the position's came in after it
  (`BinaryTreeMatches.TreeExact`; input `BinaryTreeMatches.TreeFallsShort`).
- The canonical finder with unique 128-byte keys keeps only the newest of equal keys, and so can miss
  a longer match at an older one. It finds the longest length if and only if that is shorter than a
  key, or the newest position with an equal key attains it (`LexicographicMatches.KeysExact`;
  input `LexicographicMatches.KeysFallShort`).
- Apart from insisting on the exact size, the inspector is stricter than the decoder on one point
  only: a zero literal-count field in a token that the decoder reads (`Inspector.InspectionVerdict`;
  input `Inspector.StricterThanTheDecoder`).
- Reading back a saved configuration returns the regular text if and only if that text, stripped at
  its end, has no line after its first that begins with `#*# ` (`Autosave.SavedTextReadsBack`,
  `SaveConfig.MarkersAreLines`; input `SaveConfig.MarkerLineIsNotReadBack`); no condition on the
  autosave text is needed.
- A file that cannot be read because of a marker can become readable by a save, in exactly two ways:
  the marker ended in trailing space, or the text ended in a header without its last newline
  (`SaveConfig.SavedIsReadable`; inputs `SaveConfig.TrailingMarkerHeals`,
  `SaveConfig.BareHeaderHeals`, whatever block is saved). After the first save nothing changes any more.
- The inventory has no part for data whose bytes do not match: a byte that only such records cover,
  without conflict, is counted among the unchecked ones (`Inventory.LeftoversMean`; input
  `Inventory.UnmatchedDataIsUnchecked`).

## Model

| member | source | states |
|---|---|---|
| TokenFormat.EncodeToken | tools/gd_scatter_compress.py:32-53 | encoding succeeds exactly on well-formed tokens, and says which bound a refused one breaks |
| TokenFormat.ReadsBack | tools/gd_scatter_compress.py:32-53 | wherever the bytes of a token stand in a stream, both readers recover exactly that token and stop right after it |
| TokenFormat.TakeToken | tools/scatterload.py:37-51 | the byte-by-byte reader with its escape bytes and distance classes, including where it runs off the end |
| TokenFormat.StrictReading | tools/gd_scatter_compress.py:221-231 | the inspector's reader and the decoder's reader differ only on a zero literal-count field |
| Scatterload.Decompress | tools/scatterload.py:28-57 | the decoder's result or error on every source and size, with overlapping copies |
| Scatterload.CopyMatch | tools/scatterload.py:52-56 | a copy appends n bytes, each equal to the byte one distance before it, also where it overlaps itself |
| Scatterload.CopyIsDetermined | tools/scatterload.py:52-56 | the copy is the only continuation that repeats at its distance |
| Inspector.Inspect | tools/gd_scatter_compress.py:207-242 | the inspector's records, consumption or error on every stream and size |
| Inspector.InspectionVerdict | tools/gd_scatter_compress.py:207-242 | accepted exactly when the stream expands to exactly the requested size and no token that the decoder reads has a zero count field; then consumption agrees, the records tile both ranges, and each record is the token that stands there, with its literals and its shifted match |
| Inspector.StricterThanTheDecoder | tools/gd_scatter_compress.py:224-226 | six bytes that the decoder expands to the requested four and the inspector refuses |
| Inspector.RefusedFrom | tools/gd_scatter_compress.py:224-241 | a stream refused for any other reason fails in the decoder or overruns |
| Streams.SpelledExpands | tools/scatterload.py:36-57 | tokens that spell out data expand to that data, wherever they stand and whatever follows |
| Window.SearchesAgree | tools/gd_scatter_compress.py:64-85 | nearest-first and oldest-first search find the same length, and no position of the window offers more |
| Window.NearestIsNearest | tools/gd_scatter_compress.py:72-85 | the nearest search's match is attained, and no nearer position attains its length |
| Window.OldestIsOldest | tools/gd_scatter_compress.py:72-85 | the oldest search's match is attained, and no older position of the window attains its length |
| Window.LongestMatchIs | tools/gd_scatter_compress.py:64-85 | the longest match length is the greatest offer of the window, independently of any search |
| Window.MatchLengthRepeats | tools/gd_scatter_compress.py:79-80 | a match of n bytes is exactly a shift of n bytes of the data |
| ExhaustiveMatches.Matches.constructor | tools/gd_scatter_compress.py:58-62 | the index lists, for every three bytes, exactly the positions where they stand, in order |
| ExhaustiveMatches.Matches.Best | tools/gd_scatter_compress.py:64-85 | the indexed search, in either direction, with its skip test and early exit, returns the exhaustive answer |
| ExhaustiveMatches.Walk | tools/gd_scatter_compress.py:70-85 | walking only the indexed positions and stopping at the limit loses nothing |
| ExhaustiveMatches.Visit | tools/gd_scatter_compress.py:75-82 | skipping a position whose next byte differs never drops a better match |
| Keys.KeyLcp | tools/gd_scatter_compress.py:100-117 | common prefixes of keys are match lengths, as far as the keys reach |
| LexicographicMatches.NeighboursSuffice | tools/gd_scatter_compress.py:109-120 | no position of the window shares more of the key than the better of the two neighbours |
| LexicographicMatches.NeighbourTheorem | tools/gd_scatter_compress.py:95-130 | for every input, position, window and key limit of at least three: the neighbours find a match iff exhaustive search does, the lengths agree up to the key limit, and exactly for 257-byte keys, whole suffixes, and whenever the longest match is shorter than the key |
| LexicographicMatches.NewestEqualIsTaken | tools/gd_scatter_compress.py:107-121 | unique keys or not, the stored match is that of the newest position of the window with an equal full key, if there is one |
| LexicographicMatches.KeysExact | tools/gd_scatter_compress.py:95-130 | with keys of 3 to 257 bytes, unique or not, at every position of every input, the stored length is the exhaustive one if and only if that is shorter than a key or the newest position with an equal key attains it |
| LexicographicMatches.KeysFallShort | tools/gd_scatter_compress.py:95-130 | an input of 387 bytes on which unique 128-byte keys store less than the longest match |
| LexicographicMatches.NeighbourBestFromWindow | tools/gd_scatter_compress.py:111-121 | the stored match is a real match inside the window |
| LexicographicMatches.Expire | tools/gd_scatter_compress.py:98-106 | from a list and dictionary for exactly the window's positions to one without the expired position, newest representatives kept |
| LexicographicMatches.Insert | tools/gd_scatter_compress.py:122-127 | the list stays strictly ordered and holds exactly the window's keys, each unique key at its newest position |
| LexicographicMatches.NeighboursAreThere | tools/gd_scatter_compress.py:109-114 | the entries around the bisection point are the predecessor and successor that a scan of the window finds |
| LexicographicMatches.VisitNeighbours | tools/gd_scatter_compress.py:110-120 | predecessor first, successor wins equal lengths |
| LexicographicMatches.LexicographicMatches.constructor | tools/gd_scatter_compress.py:95-127 | every stored match is the one of the scan-based reference |
| BinaryTreeMatches.TreeHoldsNewest | tools/gd_scatter_compress.py:139-162 | after every prefix the tree is a search tree holding each distinct 257-byte key once, at its newest position |
| BinaryTreeMatches.SearchPathSuffices | tools/gd_scatter_compress.py:145-157 | no node that expired nodes do not rival offers more than the nodes on the search path |
| BinaryTreeMatches.TreeTheorem | tools/gd_scatter_compress.py:139-162 | wherever no expired position matches as long as the longest match of the window, so at every position up to 65,535, the first longest match on the path has the exhaustive length |
| BinaryTreeMatches.PathIs | tools/gd_scatter_compress.py:139-162 | the search path from the input alone: a key is compared on the way to another exactly if every key between the two came in after it |
| BinaryTreeMatches.TreeExact | tools/gd_scatter_compress.py:139-162 | at every position of every input, the stored length is the exhaustive one if and only if some longest match of the window has its key on the path |
| BinaryTreeMatches.TreeFallsShort | tools/gd_scatter_compress.py:139-162 | an input of 65,554 bytes on which the stored match is shorter than the longest |
| BinaryTreeMatches.TreeBestIsMatch | tools/gd_scatter_compress.py:151-152 | at every position of every input the stored match is real, inside the window, and not longer than the longest |
| BinaryTreeMatches.Descend | tools/gd_scatter_compress.py:145-157 | the loop down the arrays follows the search path and carries its first longest match |
| BinaryTreeMatches.Place | tools/gd_scatter_compress.py:153-161 | after relinking, the arrays represent the tree after insertion, also when an equal key is replaced |
| BinaryTreeMatches.BinaryTreeMatches.constructor | tools/gd_scatter_compress.py:139-162 | every stored match is the one of the search path in the tree of all earlier positions |
| Compressor.AnswerIsMatch | tools/gd_scatter_compress.py:168-187 | whatever the hypothesis, the finder reports a real match that the format can express |
| Compressor.ParseSpells | tools/gd_scatter_compress.py:184-203 | from any point of the loop the remaining tokens spell out the remaining data |
| Compressor.Encode | tools/gd_scatter_compress.py:184-204 | the parsing loop writes exactly the encoding of the parse |
| Compressor.Compress | tools/gd_scatter_compress.py:168-204 | unknown names are refused; the stream decodes to the input whatever follows it, and obeys the size bound |
| Compressor.RoundTrip | tools/gd_scatter_compress.py:168-204 | for every input, hypothesis and trailing bytes, decoding returns the input and consumes exactly the stream |
| Compressor.Inspectable | tools/gd_scatter_compress.py:207-242 | the inspector accepts every encoder output and recovers the parser's tokens |
| Compressor.ExpansionBound | tools/gd_scatter_compress.py:32-53 | 6 times the compressed size is at most 7 times the input size plus 18 |
| Compressor.SameParse | tools/gd_scatter_compress.py:168-204 | nearest, oldest, lex257 and full-suffix parse every input into the same literals and lengths; the tree joins wherever it reaches a longest match everywhere, lex128 wherever the newest equal key always has a longest match |
| Compressor.TreeFindsLongest | tools/gd_scatter_compress.py:168-204 | the tree's lengths are exhaustive throughout an input if and only if it reaches a longest match everywhere; so up to 65,536 bytes, and whenever no expired position rivals the longest match |
| Compressor.KeysFindLongest | tools/gd_scatter_compress.py:168-204 | the lengths of lex128 are exhaustive throughout an input if and only if the newest equal key always has a longest match; so whenever no match reaches 128 bytes |
| Compressor.DeferralPays | tools/gd_scatter_compress.py:188-191 | a match that the lazy parse gives up is followed, after at most 127 literals, by one that is longer by at least two for every literal spent |
| Compressor.OffersAreUsed | tools/gd_scatter_compress.py:184-203 | from any point of the parse with a match on offer, the token stream goes on with fewer than 128 further literals and then a match that is longer by at least two for each of them |
| ClockSync.RunFollowsClock | klipper/klippy/clocksync.py:65-70 | over any run with under 2^32 ticks between samples the extended clock is the true one after every sample |
| ClockSync.NearbyClockRecovered | klipper/klippy/clocksync.py:137-141 | every true clock within half a wrap is recovered from its low word |
| ClockSync.RunKeepsBestRoundTrip | klipper/klippy/clocksync.py:71-80 | over any run the remembered round trip is the best of all samples once age is allowed for |
| ClockSync.RegressionInBand | klipper/klippy/clocksync.py:104-114 | one more point inside the rate band keeps averages, moments and quotient inside it and the divisor positive |
| ClockSync.HandleInBand | klipper/klippy/clocksync.py:65-119 | one reply keeps the band, enters the regression exactly when it is neither unsent nor ignored, and never divides by zero |
| ClockSync.FrequencyInBand | klipper/klippy/clocksync.py:30-45 | from the uptime reply on, over any run: the estimate is nominal until a point enters and in the band ever after, the divisor and the prediction variance are positive |
| ClockSync.PredictionError | klipper/klippy/clocksync.py:114-130 | a fresh estimate errs, at any later point inside the band, by at most the width of the band over the time since the average |
| ClockSync.ClockSync.HandleClock | klipper/klippy/clocksync.py:65-119 | the handler's whole new state and verdict |
| ClockSync.ClockSync.Connect | klipper/klippy/clocksync.py:30-45 | connecting is the uptime reply followed by a run of connecting replies |
| SecondarySync.CalibrationMeets | klipper/klippy/clocksync.py:195-217 | keeps the old clock at the first print time, maps the second to the secondary's clock where the primary reaches it, the latest of four seconds later, the last synchronisation and the extrapolated lead |
| SecondarySync.CalibrationFails | klipper/klippy/clocksync.py:195-217 | fails exactly when a frequency is zero or the two clocks coincide |
| SecondarySync.SyncTimeNeverGoesBack | klipper/klippy/clocksync.py:203-216 | over any sequence of calibrations the last synchronisation time never decreases |
| SecondarySync.SecondarySync.CalibrateClock | klipper/klippy/clocksync.py:195-217 | the new adjustment and synchronisation time, or no change on a division error |
| Statistics.NextSquare | tools/check-gd-stats-model.py:132-136 | the three ranges and the wrap test add up to a saturating sum of rounded-up costs |
| Statistics.StatsWords.Accumulate | tools/check-gd-stats-model.py:130-137 | count and sum wrap, the sum of squares saturates, the other words stay |
| Statistics.StatsWords.Update | tools/check-gd-stats-model.py:125-145 | the new words and the report, if any |
| Statistics.RunHolds | tools/check-gd-stats-model.py:125-145 | over any run the words hold exactly the calls since the last report: count and sum modulo 2^32, costs saturated |
| Statistics.ReportCovers | tools/check-gd-stats-model.py:138-144 | every report holds exactly the calls since the report before |
| Statistics.CauchySchwarz | klipper/klippy/mcu.py:623-625 | the squared sum of durations is at most their number times the sum of squares |
| Statistics.HostVarianceNotNegative | klipper/klippy/mcu.py:618-626 | unless a word overflowed, the host's variance term is at least the exact one and not negative, for every report of every run |
| Statistics.SumIsElapsed | mcu/mainBoardGD/recovered/scheduler_main.c:63-83 | over any run of tasks that follow one another, the durations since the last report add up to at most the time since then |
| Statistics.TasksInOrder | mcu/mainBoardGD/recovered/scheduler_main.c:63-83 | for every report of such a run the sum of durations has not wrapped, so the variance term is not negative unless the count or the sum of squares has left its word |
| Statistics.RunMarksLastReport | tools/check-gd-stats-model.py:137-144 | with calls less than 2^32 - 3,000,000,000 ticks apart, send time and high word are the true clock of the last report in every reachable state |
| Statistics.UptimeIsTrueClock | mcu/mainBoardGD/recovered/base_commands.c:30-36 | the uptime reply after any such run is the true 64-bit clock |
| McuStats.McuStats.HandleStats | klipper/klippy/mcu.py:618-626 | average, squared deviation and awake time, or a division error |
| McuStats.ClampNeverActs | klipper/klippy/mcu.py:624-625 | with base 256 and no overflow the host's clamp at zero changes nothing |
| Handshake.HostFollowsMcu | klipper/klippy/clocksync.py:33-37 | from statistics run to uptime reply to clock replies, the host's clock is the micro-controller's true clock |
| GCodeInput.StepKeeps | klipper/klippy/gcode.py:410-455 | every step keeps the line accounts, the acknowledgements and the bounds |
| GCodeInput.RunIsSound | klipper/klippy/gcode.py:410-455 | for every chunking and interleaving, executed, in-flight, queued and partial input are the input split at newlines, every executed line has exactly one ok, and the queue stays within 19 + 4096 lines |
| GCodeInput.RunDrains | klipper/klippy/gcode.py:446-455 | in any run without reads each step of the loop leaves exactly one less to do; the reader is never stuck, is idle after exactly that many, then listens and has executed every complete line |
| GCodeInput.Drains | klipper/klippy/gcode.py:446-455 | from every sound state a run without reads leads to the idle reader |
| GCodeInput.ReadAccounts | klipper/klippy/gcode.py:419-423 | a chunk extends the partial line and appends exactly its further lines |
| GCodeInput.GCodeIO.ProcessData | klipper/klippy/gcode.py:410-455 | a read is the read step, whether or not it interrupts processing |
| GCodeInput.GCodeIO.TakeBatch | klipper/klippy/gcode.py:446-455 | the loop swaps in a fresh queue, or stops and listens again |
| GCodeInput.GCodeIO.StartNextLine | klipper/klippy/gcode.py:189-207 | a line starts in need of an acknowledgement |
| GCodeInput.GCodeIO.Acknowledge | klipper/klippy/gcode.py:44-52 | only the first acknowledgement is written |
| GCodeInput.GCodeIO.FinishCurrentLine | klipper/klippy/gcode.py:210-224 | an error is reported and the line acknowledged, unless it was before |
| Inventory.NormalRow | tools/report-gd-progress.py:206-270 | an accepted row lies in one region, is zero storage exactly if inside the zero region, and is no executable in RAM |
| Inventory.AcceptedHash | tools/report-gd-progress.py:206-270 | an accepted row's hash is that of zeros or of exactly its range of the image, inside the image; an exact row's candidate has that hash and size |
| Inventory.FindConflicts | tools/report-gd-progress.py:279-302 | exactly the conflicting and exactly the duplicating pairs, each once |
| Inventory.ConflictBytes | tools/report-gd-progress.py:303-346 | the bytes on which any two records conflict, in whichever order they come |
| Inventory.AddRecord | tools/report-gd-progress.py:310-345 | each record adds its bytes to exactly the sets of its kind and status |
| Inventory.ExactIsUndisputed | tools/report-gd-progress.py:288-302 | no byte counted as exact is covered by a record of the other language, of other bounds or with an unmatched verdict |
| Inventory.PartitionTheorem | tools/report-gd-progress.py:346-367 | for every list of validated records the eleven parts of a region are pairwise disjoint and cover it, and their sizes add up |
| Inventory.LeftoversMean | tools/report-gd-progress.py:364-366 | a gap is a byte that no record covers; an unchecked byte is covered, without conflict, by unchecked records and unmatched data only |
| Inventory.UnmatchedDataIsUnchecked | tools/report-gd-progress.py:310-366 | a record of unmatched constant data whose bytes are all counted as unchecked |
| Inventory.BuildInventory | tools/report-gd-progress.py:273-399 | the byte sets and parts of every region, and exactly the conflicting and duplicating pairs, each once; the partition-overlap error cannot occur for validated records |
| Inventory.ReportIgnoresOrder | tools/report-gd-progress.py:273-399 | every byte set and part of every region is unchanged by reordering or repeating records |
| Intervals.Intervals | tools/report-gd-progress.py:133-142 | non-empty, ordered intervals with gaps between them that contain exactly the points |
| Text.SplitJoin | klipper/klippy/configfile.py:183-192 | joining lines and splitting the text gives the lines back |
| Autosave.Save | klipper/klippy/configfile.py:395-413 | the text of the saved file |
| Autosave.FindAutosaveData | klipper/klippy/configfile.py:170-192 | the regular and autosave text of any file, damaged files as regular altogether |
| Autosave.HeaderNotEarlier | klipper/klippy/configfile.py:173-176 | no header is found inside the regular text or straddling its end |
| Autosave.SavedTextReadsBack | klipper/klippy/configfile.py:170-192 | the regular text comes back, stripped at the end, if and only if it holds no marker, and then the autosave lines too, each stripped at its end |
| Autosave.SavingAgainIsFixed | klipper/klippy/configfile.py:395-413 | saving the stripped regular text with the same or the trimmed autosave text writes the same file |
| Autosave.SaveReadSave | klipper/klippy/configfile.py:395-413 | save, read, save gives the same file |
| Duplicates.StripDuplicates | klipper/klippy/configfile.py:195-216 | the in-place pass over sections, fields and continuation lines |
| Duplicates.CommentedExactly | klipper/klippy/configfile.py:195-216 | exactly the fields defined in their section, and the continuation lines that belong to them, are commented out |
| Duplicates.StrippingIsIdempotent | klipper/klippy/configfile.py:195-216 | a second pass changes nothing: no duplicate field or continuation is left behind |
| SaveConfig.SaveOver | klipper/klippy/configfile.py:390-413 | the file that a save writes over another: read, undoubled, assembled |
| SaveConfig.MarkersAreLines | klipper/klippy/configfile.py:178-181 | the marker occurs exactly if a line after the first begins with the prefix |
| SaveConfig.CommentingAndMarkers | klipper/klippy/configfile.py:195-216 | commenting out keeps every marker, and adds one exactly where a line begins with `*# ` and the block has an option without a name |
| SaveConfig.SaveKeepsReadable | klipper/klippy/configfile.py:390-413 | saving over a readable file gives a readable one that reads back the undoubled regular text and the autosave lines |
| SaveConfig.SavedIsReadable | klipper/klippy/configfile.py:170-192 | for every regular and autosave text, the saved file is readable if and only if the stripped regular text has no marker, or ends in a bare header without a marker before it |
| SaveConfig.DamageStays | klipper/klippy/configfile.py:390-413 | once a save has left an unreadable file, no later save makes it readable |
| SaveConfig.FirstSaveDecides | klipper/klippy/configfile.py:390-413 | over any sequence of saves a readable file stays readable and gives back the last block; for any file the first save decides whether it is readable ever after |
| SaveConfig.MarkerLineIsNotReadBack | klipper/klippy/configfile.py:178-181 | a section with a marker line below it: whatever block is saved over it, the file is taken as regular altogether |
| SaveConfig.TrailingMarkerHeals | klipper/klippy/configfile.py:390-413 | an unreadable file that any save makes readable because its marker ends in trailing space |
| SaveConfig.BareHeaderHeals | klipper/klippy/configfile.py:390-413 | an unreadable file that any save makes readable because it ends in a bare header |
| Includes.ParsingIsInlining | klipper/klippy/configfile.py:227-267 | reading succeeds exactly when plain inlining ends, with the same lines in the same order |
| Includes.FailsExactlyOnBadChains | klipper/klippy/configfile.py:227-267 | reading fails exactly when an include chain comes back to a file on it or reaches an unreadable include; a recursion error always has a chain that comes back |
| Includes.Reader.ParseConfig | klipper/klippy/configfile.py:242-267 | terminates, restores the visited set on success, and hands on exactly the specified lines |
| Includes.Reader.ResolveInclude | klipper/klippy/configfile.py:227-241 | the files of one include in order; an empty match is an error only without wildcards |

## Left out

- The comparison and analysis reports of the compressor (`compare`, `analyze_reference`) and the command-line programs: diagnostics over the modelled parts.
- ClockSync.ClockSync.HandleClock: does not model the message to the serial layer with its square root, nor logging.
- ClockSync.ClockSync.Connect: does not model the timer and the pauses; a raised division error ends it early.
- SecondarySync.SecondarySync.CalibrateClock: the initial offset computed on connecting is an arbitrary adjustment here.
- McuStats.McuStats.HandleStats: keeps the square of the deviation instead of its root.
- Statistics.StatsWords.Update: does not model the order of memory accesses or another writer between them.
- GCodeInput.GCodeIO.ProcessData: does not model the end of a debug input file, nor the early look for emergency stops; handlers and responses are arbitrary.
- Inventory.NormalRow: alternative names of row entries are resolved beforehand; report freshness is a parameter.
- Inventory.BuildInventory: the texts and the reasons of conflicts are not modelled.
- Inventory.ReportIgnoresOrder: not the lists of pairs, which name records by place and change with order and repetition.
- Autosave.Save: file access, newline translation, backup names and the configuration parser's own text are not modelled; the autosave text is arbitrary.
- Includes.Reader.ParseConfig: recognising an include line, globbing and path arithmetic are abstracted into items; the main file's text is what the file system holds for it.
- Includes.Reader.ResolveInclude: the sorted list of files that a pattern matches is given.
- SaveConfig.SaveOver: the refusal to save over a conflict with an included file, and the parsing of the regular text, are not modelled; which options the block has is a parameter.
- Rounding of floating-point numbers.
