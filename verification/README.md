# Market data handler: a verified model of its core

This project models, in Dafny, the parts of the market data handler that
decide what happens to the data:

- the comment stripper used on the C++ sources (`strip_comments.py`). It is
  one regular expression whose matches are either deleted (comments) or
  kept (character and string literals). Its output is then split into
  lines, trailing whitespace is trimmed, runs of blank lines are collapsed
  and the lines are joined again. Modules `StripComments`, `Lines` and
  `CleanFile`.
- the wire format (`src/market_data.h`). It has four message types in
  one-byte-packed structs. Module `MarketData`.
- the message validator (`src/message_parser.cpp`). It makes three length
  checks, counts invalid messages and counts sequence-number gaps, all in
  the source's 32- and 64-bit widths. Module `MessageParser`.
- the order book (`src/order_book.cpp`). It has price levels per side and
  resting orders by id, with best bid, best ask and spread. Module
  `OrderBook`.
- the single-producer single-consumer ring buffer (`src/ring_buffer.h`),
  read sequentially as a bounded FIFO queue. Module `RingBuffer`.
- the latency statistics (`src/utils/stats.h`). They are a five-bucket
  histogram, 64-bit running totals, extremes, a round-robin sample store
  and snapshots with percentiles. Modules `LatencyStats` and `Sorting`.

`Common` holds the shared pieces: `Option`, the fixed-width integer types,
and the explicit wrap-around `Wrap32`/`Wrap64` used wherever the source's
unsigned arithmetic can overflow.

The regular expression is modelled as a scanner (`Match`, `Strip`). It is
proved equal to a grammar written independently for each alternative:
`MatchComplete` plus `Match`'s own postcondition.

Every operation has a partner:
- the parser has a well-formedness predicate;
- an order add and its cancel are inverses (`OrderBook.AddThenCancel`), and a
  quote, which overwrites its two levels outright, is characterised by its
  effect on the best prices (`OrderBook.QuoteBestPrices`) and by leaving
  every other level untouched;
- the ring has the queue it stands for;
- the statistics have the history of recorded latencies;
- the normaliser has the split/join round trip.

### Where the regular expression departs from the usual reading

The comment at strip_comments.py:5 says the pattern is for C++ comments
and respects string literals. In each case below the pattern at
strip_comments.py:15-18 does something a reader of C++'s lexical rules
would not expect, and the model follows the pattern.

- A block comment with no closing `*/` is not swallowed to the end of the
  text. The lazy `/\*.*?\*/` fails, so the `/` is copied as plain text and
  scanning resumes at the `*` (`StripComments.UnterminatedBlockCopied`).
- A character literal holds exactly one unit (`'(?:\\.|[^\\'])'` has no
  repetition), so a multi-character literal such as `'ab'` is not
  matched, and neither is `''` (`StripComments.CharLiteralExamples`).
- A string literal may span newlines. A negated class such as `[^\\"]`
  matches a newline in Python with or without flags, and `re.DOTALL`
  also lets the `\\.` unit take a backslash followed by a newline. So a
  double quote is left unmatched only when no unescaped double quote follows it.
- Stripping is not idempotent, and neither is the whole clean-up, though
  one might expect a second run over cleaned files to change nothing. In
  `'a/*x*/'"'"//"`, deleting the comment lets the lone quote close a
  character literal. The second pass then pairs the quotes differently
  and deletes a `//` that used to sit inside a string
  (`CleanFile.StripNotIdempotent`). Separately, text whose last written
  line is blank loses that line on a second pass
  (`Lines.NormalizeTrailingBlank`, `CleanFile.CleanNotIdempotent`).
  The normaliser alone is idempotent whenever the last written line is
  not empty (`Lines.NormalizeIdempotent`).

## Model

| member | source | states |
|---|---|---|
| StripComments.BlockClose | strip_comments.py:16 | the lazy `.*?\*/`: the index just past the first `*/` at or after the start, with no `*/` before it; or none when the text has no later `*/` |
| StripComments.StringClose | strip_comments.py:16 | the first unescaped `"` from the start, with the text before it made of units (an escape pair or a character that is neither `\` nor `"`) |
| StripComments.CharLiteralLen | strip_comments.py:16 | a found length delimits a character literal of the grammar (one unit between single quotes) |
| StripComments.Match | strip_comments.py:15-18 | the alternation at the start of the text: any token it returns is non-empty, fits in the text and matches the grammar of its alternative |
| StripComments.MatchComplete | strip_comments.py:15-18 | whatever the grammar says matches at the start is exactly what the scanner returns, so at most one alternative matches |
| StripComments.CharLiteralFound | strip_comments.py:16 | a grammatical character literal at the start is found by the scanner with its length |
| StripComments.StringLiteralFound | strip_comments.py:16 | a grammatical string literal at the start is found by the scanner with its length |
| StripComments.Replace | strip_comments.py:6-13 | a match starting with `/` becomes empty, any other match is returned unchanged, and nothing else can happen |
| StripComments.Strip | strip_comments.py:4-19 | the substitution never lengthens the text |
| StripComments.LineCommentDeleted | strip_comments.py:16-17 | `//` and the rest of its line are deleted; the newline and what follows are scanned on |
| StripComments.BlockCommentDeleted | strip_comments.py:16 | a terminated block comment is deleted, newlines and all |
| StripComments.UnterminatedBlockCopied | strip_comments.py:16-17 | with no closing `*/`, the `/` is copied and scanning resumes at the `*` |
| StripComments.StringLiteralKept | strip_comments.py:11-16 | a string literal is copied verbatim, whatever comment-like text is inside it |
| StripComments.CharLiteralKept | strip_comments.py:11-16 | a character literal is copied verbatim |
| StripComments.UnterminatedStringCopied | strip_comments.py:16-19 | a double quote with no closing quote after it is copied as plain text |
| StripComments.CharLiteralExamples | strip_comments.py:16 | `'\''` is a four-character literal; `''` and `'ab'` match nothing |
| StripComments.PlainRunCopied | strip_comments.py:19 | characters that open no match are copied unchanged |
| StripComments.UnmatchedCopied | strip_comments.py:15-19 | where no alternative of the grammar matches, one character is copied and scanning moves on by one |
| StripComments.LiteralThenRest | strip_comments.py:11-16 | a literal in front of any text is kept and the rest is stripped on its own |
| StripComments.BlockThenRest | strip_comments.py:8-16 | a block comment in front of any text is dropped and the rest is stripped on its own |
| StripComments.NoSlashUnchanged | strip_comments.py:4-19 | text without a slash holds no comment and is unchanged |
| StripComments.StripIsSubsequence | strip_comments.py:4-19 | the output is the input with characters deleted: nothing is added or reordered |
| StripComments.Spans | strip_comments.py:15-19 | the scan's classification: comment spans are line comments up to their newline or terminated block comments, literal spans are literals of the grammar, plain spans are single characters |
| StripComments.SpansPartition | strip_comments.py:15-19 | the spans cover the text with no gap and no overlap |
| StripComments.StripKeepsNonComments | strip_comments.py:6-19 | stripping yields exactly the non-comment spans, in order |
| StripComments.RemovedLength | strip_comments.py:6-19 | the characters removed are exactly those of the comment spans |
| StripComments.NoCommentUnchanged | strip_comments.py:6-19 | text in which the scan finds no comment, division signs included, comes out unchanged |
| Lines.RStrip | strip_comments.py:33 | the longest prefix not ending in whitespace, with only whitespace after it |
| Lines.RStripOf | strip_comments.py:33 | a line that does not end in whitespace, followed by whitespace, trims back to the line |
| Lines.RStripIdempotent | strip_comments.py:33 | trimming twice is trimming once |
| Lines.SplitLines | strip_comments.py:33 | no split line holds a newline |
| Lines.Join | strip_comments.py:47 | one newline between neighbouring lines and none at the end: the result starts with the first line and is as long as all the lines together plus one less than their number |
| Lines.JoinSplitLines | strip_comments.py:33-47 | joining the split lines gives the text back, less one final newline |
| Lines.SplitJoin | strip_comments.py:33-47 | splitting joined lines gives them back when none holds a newline and the last is not empty |
| Lines.CollapseBlankLines | strip_comments.py:35-44 | the loop with its `last_empty` flag drops exactly the empty lines that follow an empty line |
| Lines.CollapseLast | strip_comments.py:35-44 | the last kept line is the last input line |
| Lines.CollapseNoAdjacentBlanks | strip_comments.py:35-44 | no two kept lines in a row are empty |
| Lines.CollapseKeepsNonBlank | strip_comments.py:35-44 | every non-empty line is kept, in order |
| Lines.LeadingBlankKept | strip_comments.py:35-44 | a leading empty line is kept |
| Lines.CollapseIdentity | strip_comments.py:35-44 | lines with no two empty lines in a row are left as they are |
| Lines.CollapseOnlyDrops | strip_comments.py:35-44 | collapsing only drops lines: every kept line is one of the input lines |
| Lines.CleanLinesUnstripped | strip_comments.py:33 | lines with no trailing whitespace are unchanged by trimming |
| Lines.Normalize | strip_comments.py:33-47 | the normalised text is never longer than the text it was made from |
| Lines.NormalizedLinesShape | strip_comments.py:33-44 | every written line is free of newlines and trailing whitespace, and no two in a row are empty |
| Lines.NormalizeIdempotent | strip_comments.py:33-47 | normalising normalised text changes nothing when the last written line is not empty |
| Lines.NormalizeOneLine | strip_comments.py:33-47 | a single line, with or without a final newline, is written out trimmed |
| Lines.TrailingBlanksDropped | strip_comments.py:33-47 | spaces and tabs after a line's last character are removed |
| Lines.NormalizeTrailingBlank | strip_comments.py:33-47 | a line and two newlines becomes the line and one newline, which in turn becomes the line alone |
| CleanFile.Clean | strip_comments.py:30-47 | stripping then normalising one file's text never lengthens it |
| CleanFile.NoCommentsOnlyNormalized | strip_comments.py:30-47 | text in which the scan finds no comment (a `/` used for division is allowed) only has its lines normalised |
| CleanFile.LeadingBlankLine | strip_comments.py:33-47 | an empty first line before a clean line is kept |
| CleanFile.PiecesOneLine | strip_comments.py:33-47 | one line without trailing whitespace, however it is assembled, is written as it is |
| CleanFile.OneLineFixed | strip_comments.py:33-47 | a clean single line is a fixed point of the normaliser |
| CleanFile.NewlinesThenLine | strip_comments.py:33 | `n` newlines before a line split into `n` empty lines and that line |
| CleanFile.LineCommentExample | strip_comments.py:30-47 | `int x; // comment` loses the comment and then the space before it |
| CleanFile.BlockCommentExample | strip_comments.py:30-47 | a two-line block comment is removed with its newline, leaving an empty first line |
| CleanFile.UrlInStringExample | strip_comments.py:30-47 | the `//` inside `"http://example.com"` is not a comment |
| CleanFile.BlankRunExample | strip_comments.py:30-47 | four blank lines between two statements become one |
| CleanFile.QuotedQuoteExample | strip_comments.py:30-47 | `'\''` is kept verbatim and the trailing comment goes, giving `char c = '\'';` |
| CleanFile.StripNotIdempotent | strip_comments.py:15-19 | stripping `'a/*x*/'"'"//"` gives `'a'"'"//"`, and stripping that gives `'a'"'"` |
| CleanFile.CleanNotIdempotent | strip_comments.py:30-47 | cleaning twice differs from cleaning once, both for the text above and for a line followed by a blank line |
| MarketData.SizesArePacked | src/market_data.h:16-59 | the header is 16 bytes and the four messages are 44, 36, 44 and 28 bytes: the sums of their field widths with no padding |
| MarketData.ExpectedLen | src/message_parser.cpp:38-52 | the expected length is nonzero exactly for the four known types, and is then the packed size of that type's struct |
| MarketData.MessageSizesBounded | src/market_data.h:18-63 | every message is longer than a bare header and fits in the 2048-byte payload |
| MarketData.LengthDoesNotDetermineType | src/message_parser.cpp:38-52 | a quote and an order add have the same length |
| MessageParser.GapAfter | src/message_parser.cpp:28-31 | no gap before the first message or after the 32-bit successor; a rising number skips the numbers in between; an older or repeated number wraps to nearly 2^32 |
| MessageParser.Parse | src/message_parser.cpp:8-36 | a datagram is accepted exactly when it is well formed (whole header, known type, declared length equal to the packed size and covered by the datagram); a rejection counts one invalid message and changes nothing else; an acceptance adds its gap and records its number |
| MessageParser.AcceptedLengthBounds | src/message_parser.cpp:10-26 | an accepted message's declared length exceeds a header and lies within both the datagram and the payload |
| MessageParser.InvalidCountsRejected | src/message_parser.cpp:8-26 | over a stream, the invalid counter grows by the number of malformed datagrams, modulo 2^64 |
| MessageParser.GapsCountSkippedNumbers | src/message_parser.cpp:28-33 | over a strictly rising stream, the gaps added are the numbers skipped, and the last number is the stream's last |
| MessageParser.ZeroResetsGapTracking | src/message_parser.cpp:28-33 | a message numbered 0 makes the next message open no gap, whatever its number |
| MessageParser.QuoteThenShortDatagram | tests/test_parser.cpp:7-26 | a full quote numbered 1 is accepted with no gap; a 4-byte datagram after it is rejected as the first invalid message |
| OrderBook.AddSize | src/order_book.cpp:14-17 | the level at the price grows by the size, modulo 2^32, being created at 0 when missing; other levels are unchanged |
| OrderBook.RemoveSize | src/order_book.cpp:33-52 | a level holding more than the size shrinks by it; one holding no more is erased; a missing level stays missing; other levels are unchanged |
| OrderBook.AddThenRemoveSize | src/order_book.cpp:14-52 | removing a size just added restores a level that was missing or non-zero, when the add did not wrap |
| OrderBook.OnOrderAdd | src/order_book.cpp:6-19 | the order is filed under its id, replacing any earlier one; its size goes onto its price level on the bid side for `B` and the ask side otherwise |
| OrderBook.OnOrderCancel | src/order_book.cpp:21-56 | an unknown id changes nothing; a known order leaves the id map and its size leaves its level on its side |
| OrderBook.OnQuote | src/order_book.cpp:58-62 | the quoted bid and ask levels are set outright, zero sizes included; everything else is untouched |
| OrderBook.Highest | src/order_book.h:39 | the first key of the bid map, ordered by descending price, is its greatest price |
| OrderBook.Lowest | src/order_book.h:41 | the first key of the ask map, ordered by ascending price, is its least price |
| OrderBook.BestBid | src/order_book.cpp:64-70 | 0 with no bids, otherwise the highest bid price |
| OrderBook.BestAsk | src/order_book.cpp:72-78 | 0 with no asks, otherwise the lowest ask price |
| OrderBook.Spread | src/order_book.cpp:80-89 | 0 when either best price reads 0, otherwise ask less bid, negative exactly when the book is crossed |
| OrderBook.EmptyBookQueries | src/order_book.cpp:64-89 | a new book answers 0 to all three queries |
| OrderBook.AddThenCancel | src/order_book.cpp:6-56 | cancelling an order just added under a fresh id restores the book, if its level neither wraps nor held a zero-size entry |
| OrderBook.QuoteBestPrices | src/order_book.cpp:58-78 | after a quote, the best bid is the larger of the old best and the quoted bid, and the best ask is the smaller of the old best and the quoted ask |
| OrderBook.AddBidRaisesBest | src/order_book.cpp:6-70 | adding a bid makes the best bid the larger of the old best and its price, and leaves the best ask alone |
| OrderBook.AddCancelScenario | tests/test_order_book.cpp:7-35 | a bid at 1,000,000 is the best bid, and cancelling it empties the bid side again |
| RingBuffer.MaskKeepsIndex | src/ring_buffer.h:21 | masking an index below a power of two with one less than it leaves the index unchanged |
| RingBuffer.MaskClearsPow2 | src/ring_buffer.h:21 | masking a power of two with one less than it gives 0 |
| RingBuffer.Advance | src/ring_buffer.h:34 | `(i + 1) & mask` steps to the next slot, wrapping from the last to the first |
| RingBuffer.Empty | src/ring_buffer.h:15-19 | a new ring has both indices at slot 0 and holds nothing |
| RingBuffer.Size | src/ring_buffer.h:58-65 | the size is head less tail around the ring, below the slot count, and 0 exactly when head meets tail |
| RingBuffer.TryPush | src/ring_buffer.h:30-43 | a refused push changes nothing; a successful one writes the item at the old head and moves the head one slot on, wrapping at the end |
| RingBuffer.TryPop | src/ring_buffer.h:45-56 | a refused pop changes nothing and leaves the caller's variable as it was; a successful one yields the item at the old tail and moves the tail one slot on, wrapping at the end |
| RingBuffer.PushAppends | src/ring_buffer.h:30-43 | a push succeeds exactly when fewer than slots-less-one items wait, and then appends the item to the queue |
| RingBuffer.PopTakesOldest | src/ring_buffer.h:45-56 | a pop succeeds exactly when an item waits, and then yields the oldest and removes it from the queue |
| RingBuffer.PushAllAppends | src/ring_buffer.h:30-43 | pushes that fit all succeed and append their items in order |
| RingBuffer.PopNTakesOldest | src/ring_buffer.h:45-56 | popping no more than wait yields them oldest first and leaves the rest |
| RingBuffer.FifoRoundTrip | src/ring_buffer.h:30-56 | what is pushed into an empty ring within capacity is popped back in the same order, and the ring is then empty |
| RingBuffer.CapacityIsOneLess | src/ring_buffer.h:30-65 | a ring of n slots holds n - 1 items: the next push is refused when full, and the next pop is refused when drained |
| RingBuffer.EightSlotScenario | tests/test_ring_buffer.cpp:6-23 | with eight slots, seven pushes succeed, the eighth is refused, seven pops return 0 to 6 in order, and the next pop is refused |
| Sorting.Sort | src/utils/stats.h:69 | the result is ascending and a permutation of the input |
| Sorting.SortedPermutationUnique | src/utils/stats.h:69 | two ascending permutations of the same samples are equal, so any sort gives the same result |
| LatencyStats.BucketFor | src/utils/stats.h:111-118 | the scan stops at the bucket numbered by how many bounds the latency reaches |
| LatencyStats.BucketRanges | src/utils/stats.h:109-118 | the buckets are [0, 500), [500, 1000), [1000, 2000), [2000, 5000) and from 5000 up, each in both directions |
| LatencyStats.BucketMonotone | src/utils/stats.h:109-118 | a longer latency never lands in a lower bucket |
| LatencyStats.Init | src/utils/stats.h:27-31 | a new recorder stores the given bound and takes the member initialisers' values (stats.h:102-107): no samples, zero counts, total and next index, a minimum of UINT64_MAX and a maximum of 0, and satisfies the recorder invariant when its bound is positive |
| LatencyStats.InitDefault | src/utils/stats.h:27-28 | a recorder built without a bound keeps at most 1'000'000 samples, is empty and satisfies the recorder invariant |
| LatencyStats.Record | src/utils/stats.h:33-48 | the invariant is kept; the counter and total grow in 64-bit arithmetic; the extremes take in the latency |
| LatencyStats.RecordCountsBucket | src/utils/stats.h:111-118 | recording adds one to the latency's bucket, modulo 2^64, and leaves the others alone |
| LatencyStats.RecordKeepsHistogramTotal | src/utils/stats.h:33-48 | the histogram total and the sample counter stay equal modulo 2^64 |
| LatencyStats.HistogramTotalOfHistory | src/utils/stats.h:33-48 | after any history from a new recorder, the histogram counts every sample, modulo 2^64 |
| LatencyStats.RoundRobin | src/utils/stats.h:45 | the next index advances by one and wraps at the bound |
| LatencyStats.Reset | src/utils/stats.h:85-93 | every field returns to its initial value and the bound stays |
| LatencyStats.SamplesCounted | src/utils/stats.h:36 | after a history, the counter holds its length, modulo 2^64 |
| LatencyStats.LatencyTotalled | src/utils/stats.h:35 | after a history, the total holds the sum of its latencies, modulo 2^64 |
| LatencyStats.TotalAccumulates | src/utils/stats.h:35 | the total after a history is the step-by-step 64-bit running sum |
| LatencyStats.AccumulateWraps | src/utils/stats.h:35 | a running sum in 64-bit arithmetic equals the exact sum wrapped once |
| LatencyStats.ExtremesOfHistory | src/utils/stats.h:37-38 | after a non-empty history from a new recorder, the extremes are its least and greatest latencies |
| LatencyStats.HistogramOfHistory | src/utils/stats.h:111-118 | each bucket holds how many latencies of the history fall in it |
| LatencyStats.StoreOfHistory | src/utils/stats.h:40-45 | the store holds the whole history until it reaches the bound, and after that the last `bound` latencies rotated to the next index |
| LatencyStats.StoreStep | src/utils/stats.h:40-45 | one more latency keeps the store as described, appending while filling and overwriting the oldest once full |
| LatencyStats.Percentile | src/utils/stats.h:71-75 | the sample at the rank, the rank held to the last index; always one of the sorted samples |
| LatencyStats.Recorded | src/utils/stats.h:52 | the smaller of the sample counter and the bound |
| LatencyStats.Ranked | src/utils/stats.h:63-69 | exactly `min(stored, recorded)` samples, a rearrangement of that many stored samples from the front, in ascending order, non-empty once anything is counted |
| LatencyStats.TakeSnapshot | src/utils/stats.h:50-83 | all zeros with nothing counted; otherwise the capped count, the truncated mean, the extremes, the histogram and the four percentiles of the ranked samples |
| LatencyStats.Mean | src/utils/stats.h:58 | the truncated quotient: it times the count is at most the total, and one more times the count exceeds it |
| LatencyStats.PercentilesAreSamples | src/utils/stats.h:71-80 | each reported percentile is one of the stored samples |
| LatencyStats.PercentilesOrdered | src/utils/stats.h:71-80 | ordered ranks give ordered percentiles |
| LatencyStats.PercentileMonotone | src/utils/stats.h:71-75 | reading a sorted sequence at a higher rank never gives less |
| LatencyStats.ResetSnapshotIsZero | src/utils/stats.h:85-93 | after a reset, the snapshot is all zeros |

## Left out

- The directory walk, extension filter, file reading and writing, and progress printing (strip_comments.py:21-28 and 46-53). These are I/O. Undecodable bytes are dropped on reading, and no decoding is modelled.
- Lines.SplitLines: splits on `\n` only. Python's `splitlines` also breaks at `\r`, `\r\n`, `\v`, `\f`, `\x1c`-`\x1e`, `\x85`, `\u2028` and `\u2029`. The model treats all of these as ordinary characters, because the stripper's inputs are C++ sources with `\n` line ends.
- Lines.RStrip: trims the ASCII whitespace set only. Python's `rstrip` also removes non-ASCII whitespace such as `\xa0` and `\u2000`.
- MessageParser.Parse: works on the header the payload's first bytes decode to, held in `RawMessage`. The byte-level `reinterpret_cast` and the `as<T>` cast (src/message_parser.h:14-18) are reinterpretations of memory with nothing to check.
- MessageParser.SequenceGaps and MessageParser.InvalidMessages: plain reads of the two counters, with no contract of their own. Their values are covered by `Parse`, `InvalidCountsRejected` and `QuoteThenShortDatagram`.
- MessageParser.GapsCountSkippedNumbers: stated only for strictly rising streams whose gap total stays below 2^64. Streams with repeats or wrap-around are covered one message at a time by `GapAfter`.
- OrderBook.Spread: returns an unbounded integer. The source's `int64_t` subtraction can overflow, which is undefined behaviour, when the prices are 2^63 or more apart.
- OrderBook print_top_levels (src/order_book.cpp:91-111): console output only.
- Trades are not applied to the book: the source has no handler for them.
- RingBuffer: the atomics and memory orderings are dropped; the ring is read as used by one thread at a time.
- RingBuffer.Valid: excludes a slot count of 0. The source's `static_assert` accepts it (`0 & (0 - 1)` is 0), but the mask would then wrap around.
- LatencyStats.Valid: requires a positive bound. With a bound of 0, `record` takes a remainder by zero.
- LatencyStats.TakeSnapshot: the percentile ranks are inputs (`Ranks`). The source computes them as `0.50`, `0.95`, `0.99` and `0.999` times the number of sorted samples in floating point, truncated. The clamp to the last index is modelled.
- LatencyStats.HistogramOfHistory: stated while fewer than 2^64 latencies have been recorded. Beyond that, the wrapped relation is `HistogramTotalOfHistory`.
- LatencyStats MaxSamples (src/utils/stats.h:95-97): a plain read of the bound with no contract of its own.
- Sorting.Sort: an insertion sort stands in for `std::sort`. `SortedPermutationUnique` shows that any correct sort gives the same sequence.
- `src/main.cpp`, the UDP receiver, the feed simulator, the benchmark and the timestamp helper are not part of this model.
