# Models of the audited algorithms

This project models the algorithms that the audit repository transcribes into its patches and
proofs of concept, and proves what they compute. It covers the HTTP/2 priority comparator of Apache
httpd, the UEFI time conversion of the Rust standard library, an HTTP/2 frame codec with its response
loop, an HPACK literal encoder, an SCGI request handler, the Internet checksum, an incremental FastCGI
header scanner, a SockJS frame assembly loop, a percent-decoder, a bounded command-line join, a
double-width multiply-add, and a spin lock. `dafny verify dfyconfig.toml` checks the whole project.

| file | contents |
|---|---|
| `Wrappers.dfy`, `ByteStreams.dfy` | options and results; bytes, big-endian integers, and a socket that hands out its bytes in pieces of arbitrary size |
| `PriorityOrder.dfy` | `spri_cmp`, recursive and as a bounded loop, and the order it defines |
| `UefiTime.dfy` | `from_uefi` against a calendar that is counted day by day |
| `Http2Frames.dfy`, `Hpack.dfy`, `Scgi.dfy` | wire formats, their readers, and their round trips |
| `InternetChecksum.dfy` | the folding checksum |
| `FcgiHeaders.dfy`, `SockJsFrames.dfy`, `PercentDecoding.dfy`, `DoasLog.dfy` | incremental parsers and bounded buffers |
| `WideningMul.dfy` | signed multiply-add through u128 and through i128 |
| `SpinMutex.dfy` | the lock as atomic steps of any number of threads |

A socket is a fixed byte stream from which `recv` takes a piece of any size the network likes, so a
result that holds of a socket method holds for every way of cutting the bytes into chunks. Loops of the
source are methods proved against a specification function, and the laws are proved about that function.

Where the code and what the repository says of it disagree, the model follows the code:

- The write-up of the comparator patch says that the fallback to stream ids keeps the ordering stable.
  In a dependency tree the relation can be circular as soon as walks to stream 0 have 1002 streams
  (`PriorityOrder.TwinsCircular`). `PriorityOrder.OrderExactly` gives the exact condition for each
  single forest and set of streams, and `PriorityOrder.RootedTransitiveExactly` the depth below which
  it always holds.
- The UEFI proofs of concept expect impossible dates and minute 60 to be rejected. The code accepts
  them; `UefiTime.AcceptsUnrealExactly` says which, and `UefiTime.ResultOrder` what they are taken for.
  The timezone 0x07FF ("unspecified") is used by the code as an offset of 2047 minutes like any other.
- The multiply-add proof of concept asserts that the wrapping unsigned form and the signed form differ.
  They agree on every input (`WideningMul.FormsAgree`); what differs is that the unsigned expression
  can overflow when it is checked (`WideningMul.CheckedOverflowsExactly`), in its product or its sums.

## Model

| member | source | states |
|---|---|---|
| PriorityOrder.SpriCmp | apache-httpd/064-unbounded-priority-recursion.patch:16-51 | the added loop, on any parent map, cyclic ones included, is the walk cut off after 1000 levels, and its result fits an int32 |
| PriorityOrder.LoopRefinesRecursion | apache-httpd/064-unbounded-priority-recursion.patch:9-51 | on every forest and every pair, the loop returns the value of the removed recursion when that decides within the limit, and `sid1 - sid2` otherwise |
| PriorityOrder.ShallowIsDecided | apache-httpd/064-unbounded-priority-recursion.patch:17-41 | if either stream is within n nodes of its root, n levels decide the comparison |
| PriorityOrder.RecursionEndsExactly | apache-httpd/064-unbounded-priority-recursion.patch:11-50 | the recursion ends on all pairs of streams if and only if at most one stream is its own ancestor; in particular on every acyclic map |
| PriorityOrder.DepthDecides | apache-httpd/064-unbounded-priority-recursion.patch:42-49 | at different depths the stream nearer to its root comes first, whatever the weights |
| PriorityOrder.WeightDecides | apache-httpd/064-unbounded-priority-recursion.patch:14-24 | on every forest, streams that meet at equal depth compare by the weight difference of the two branches just below the nearest common ancestor |
| PriorityOrder.CmpMeans | apache-httpd/064-unbounded-priority-recursion.patch:16-51 | both facts for the loop, on every acyclic forest and every pair that is decided within the limit |
| PriorityOrder.SwapNegates | apache-httpd/064-unbounded-priority-recursion.patch:16-51 | on every forest, deep or cyclic, swapping the arguments negates the result |
| PriorityOrder.Irreflexive | apache-httpd/064-unbounded-priority-recursion.patch:16-51 | no stream comes before itself |
| PriorityOrder.CmpCases | apache-httpd/064-unbounded-priority-recursion.patch:16-51 | the comparator on every forest, deep or cyclic: the walk that ends earlier comes first; walks of equal length that agree at level 1000 compare by weight where they meet; all others compare by id |
| PriorityOrder.CmpOfWalks | apache-httpd/064-unbounded-priority-recursion.patch:16-51 | the same by the entries of the parent map: of two listed walks to a root the shorter one, of at most 1000 streams, comes first; where two walks part below a common stream, or at two roots, the weights there decide; walks of more than 1000 streams whose streams number 1000 differ compare by id |
| PriorityOrder.OrderExactly | apache-httpd/064-unbounded-priority-recursion.patch:16-51 | on every forest, deep or cyclic, and every set of streams, "comes first" is transitive if and only if no stream is straddled by two others: ids x < y < z, all three walks reach level 1000, x and z have met there with x not in the heavier branch, and y is elsewhere |
| PriorityOrder.ChainInOrder | apache-httpd/064-unbounded-priority-recursion.patch:16-51 | in particular the order is transitive on the streams of one chain of dependencies in an acyclic forest, however long it is |
| PriorityOrder.DecidedIsTransitive | apache-httpd/064-unbounded-priority-recursion.patch:16-51 | it is transitive on any three streams of any forest whose comparisons end within the limit, since then none is straddled |
| PriorityOrder.ShallowIsTransitive | apache-httpd/064-unbounded-priority-recursion.patch:16-51 | it is transitive throughout a forest in which every stream is within 1000 nodes of its root |
| PriorityOrder.RootedTransitiveExactly | apache-httpd/064-unbounded-priority-recursion.patch:16-51 | over all dependency trees below stream 0, the order of the streams whose walk to stream 0 has at most h streams is transitive if and only if h is at most 1001 |
| PriorityOrder.TransitiveExactlyUpToLimit | apache-httpd/064-unbounded-priority-recursion.patch:16-51 | over arbitrary parent maps, where compared streams need not share a root, the bound is one less: all forests of depth at most h are transitive if and only if h is at most 1000 |
| PriorityOrder.TwinsCircular | apache-httpd/064-unbounded-priority-recursion.md:48 | three client streams that each come before the next, in a circle, in a tree below stream 0 as well as without the common root |
| PriorityOrder.TiesTransitiveExactly | apache-httpd/064-unbounded-priority-recursion.patch:16-51 | on every forest, deep or cyclic, and every set of streams, result 0 is transitive if and only if no two branches tie, at a level within the limit, below which one of them parts again into different weights |
| PriorityOrder.SettledForests | apache-httpd/064-unbounded-priority-recursion.patch:16-51 | the limit is never reached, and the order is transitive, when every stream is within 1000 nodes of its root, or within 1001 of stream 0 |
| UefiTime.MonthFromMarch | rust-stdlib/pocs/144-nonexistent-dates-accepted.rs:25-28 | the wrapped subtraction and its repair count months from March and carry the year |
| UefiTime.MonthStep | rust-stdlib/pocs/144-nonexistent-dates-accepted.rs:28 | the constants 62719, 769 and 2048 give the month lengths 31, 30, 31 and so on |
| UefiTime.February | rust-stdlib/pocs/144-nonexistent-dates-accepted.rs:29 | the calendar gives February 29 days in every 400th year and in every fourth one that is not a hundredth, 28 otherwise |
| UefiTime.LeapStep | rust-stdlib/pocs/144-nonexistent-dates-accepted.rs:29 | the leap-day term grows by one exactly in Gregorian leap years |
| UefiTime.FormulaCountsSteps | rust-stdlib/pocs/144-nonexistent-dates-accepted.rs:24-30 | the day formula of a valid date from 1900 on is n if and only if n next-day steps from 1 January 1900 lead to it |
| UefiTime.DaysOfIsFormula | rust-stdlib/pocs/144-nonexistent-dates-accepted.rs:24-30 | the u32 computation has the value of the unbounded formula: no step wraps |
| UefiTime.NeverPanics | rust-stdlib/pocs/144-nonexistent-dates-accepted.rs:17-36 | the final unwrap succeeds on every input, and a result is returned exactly for years 1900 to 9999, months 1 to 12, days 1 to 31, hours up to 23, minutes up to 60, seconds up to 59, nanoseconds up to 999,999,999, and timezones within 1440 or equal to 2047 |
| UefiTime.AcceptsRealExactly | rust-stdlib/pocs/144-nonexistent-dates-accepted.rs:17-36 | every moment that exists from 1900 to 9999 is accepted, whatever its nanosecond and an allowed timezone; of existing moments nothing else is |
| UefiTime.ResultCountsSeconds | rust-stdlib/pocs/144-nonexistent-dates-accepted.rs:31-35 | the result of every accepted record is whole days of the stepped calendar plus time of day plus offset, in seconds |
| UefiTime.UnixEpoch | rust-stdlib/pocs/144-nonexistent-dates-accepted.rs:17-36 | 1 January 1970 at the offset of zero is second 2,208,988,800 from 1900 |
| UefiTime.ResultOrder | rust-stdlib/pocs/144-nonexistent-dates-accepted.rs:17-36 | for one timezone, accepted records are ordered, and collide, exactly as the moments they roll over to |
| UefiTime.RealResultsIncrease | rust-stdlib/pocs/144-nonexistent-dates-accepted.rs:17-36 | over real dates and times the result is strictly increasing and injective |
| UefiTime.OverrunsRoll | rust-stdlib/pocs/143-invalid-minute-accepted.rs:27-55 | a day past the month's end equals the date rolled into the next month, and minute 60 the next hour of the day |
| UefiTime.MidnightRolls | rust-stdlib/pocs/143-invalid-minute-accepted.rs:27-55 | at hour 23 minute 60 equals midnight of the next day while that is in range, and is one minute after 23:59 always |
| UefiTime.AcceptsUnrealExactly | rust-stdlib/pocs/144-nonexistent-dates-accepted.rs:18-23 | a moment that no day count and clock reaches is accepted if and only if every field is in the ranges above, given as numbers, and the day overruns its month or the minute is 60 |
| UefiTime.UnrealExample | rust-stdlib/pocs/144-nonexistent-dates-accepted.rs:38-46 | 31 February 2025 is accepted and equals 3 March 2025 |
| ByteStreams.RecvN | apache-httpd/pocs/run_pocs.py:72-79 | exactly the next n bytes whatever the chunks, or an error with the number received when the stream is shorter |
| Http2Frames.PrintedFrameIsRead | apache-httpd/pocs/run_pocs.py:980-981 | the printer raises exactly on payloads of 2^24 bytes and non-byte fields; otherwise the reader returns its arguments, the id modulo 2^31, and the bytes behind |
| Http2Frames.DecodeMeans | apache-httpd/pocs/run_pocs.py:1006-1010 | reading in bytes: fewer than 9 end in the header error; otherwise three bytes of length, a type, a flags byte, 31 bits of stream id and the payload, or the payload error with the bytes that are there |
| Http2Frames.ReadFrame | apache-httpd/pocs/run_pocs.py:1006-1010 | one frame off the socket, or the end-of-stream error of the header or of the payload, independent of chunks |
| Http2Frames.ReadFrameIsPrinted | apache-httpd/pocs/run_pocs.py:1006-1010 | printing a frame that was read gives back its bytes if and only if the reserved bit was clear |
| Http2Frames.FramesRoundTrip | apache-httpd/pocs/run_pocs.py:980-1010 | any list of frames is recovered exactly from its concatenated encoding, with no bytes left |
| Http2Frames.ReadBack | apache-httpd/pocs/run_pocs.py:1005-1010 | the same through the socket, for every chunking |
| Http2Frames.MismatchLoop | apache-httpd/pocs/run_pocs.py:1003-1019 | the loop's result and what it leaves unread are a function of the byte stream alone, and what it sends reads back as that many frames of type 4 with flags 1, stream 0 and no payload |
| Http2Frames.AcksAreRead | apache-httpd/pocs/run_pocs.py:1011-1012 | n acknowledgements behind anything sent before are n such frames for the reader |
| Http2Frames.FirstOf | apache-httpd/pocs/run_pocs.py:1011-1014 | the body is the payloads of frames of type 0 on stream 1, and the requests are the frames of type 4 with an even flags byte |
| Http2Frames.FramesAreRead | apache-httpd/pocs/run_pocs.py:1006-1010 | the frames of a byte stream are those that reading one after the other gives, and behind them reading fails with the end error |
| Http2Frames.ServeStopsAtFinal | apache-httpd/pocs/run_pocs.py:1005-1019 | on any bytes, reserved bits included, it returns the DATA payloads of stream 1 up to and including the first stream-1 frame with flag 0x1, answers each settings request in that prefix once, and reads nothing behind it |
| Http2Frames.ServeRunsDry | apache-httpd/pocs/run_pocs.py:1005-1019 | on any bytes without a stream-1 frame with flag 0x1 it answers every settings request and ends in the end-of-stream error of the header or payload in which the bytes stop |
| Http2Frames.FramesOfEncoded | apache-httpd/pocs/run_pocs.py:980-1010 | the frames and the remaining bytes that these two speak of are, on printed frames, exactly those printed |
| Http2Frames.ServeEncoded | apache-httpd/pocs/run_pocs.py:1003-1019 | the first of the two on a list of printed frames with anything behind it |
| Hpack.BlockRaisesExactly | apache-httpd/pocs/run_pocs.py:969-977 | building a block raises exactly when some name or value has 127 bytes or more |
| Hpack.HeaderForm | apache-httpd/pocs/run_pocs.py:969-977 | a header is a zero byte, the name behind its length, and the value behind its length, each length one byte of at most 126 |
| Hpack.BlockIsBlockBytes | apache-httpd/pocs/run_pocs.py:969-1002 | what the encoder builds is the form that RFC 7541 prescribes for the list of fields |
| Hpack.DecoderReadsAll | apache-httpd/pocs/run_pocs.py:969-1002 | the decoder reads that form of every list of fields, strings of 127 bytes and more included |
| Hpack.BlockRoundTrip | apache-httpd/pocs/run_pocs.py:969-1002 | that decoder, written from RFC 7541, returns exactly the list that was encoded |
| Hpack.BlocksAreInjective | apache-httpd/pocs/run_pocs.py:994-1002 | distinct lists give distinct blocks |
| Hpack.BlockImage | apache-httpd/pocs/run_pocs.py:969-1002 | a byte string is an encoder output if and only if it decodes into fields shorter than 127 bytes |
| Scgi.Handle | apache-httpd/pocs/run_pocs.py:920-943 | the outcome on any stream: how much can have arrived when the headers are cut off, given receive calls of at most 4096 bytes, and which bytes are parsed; ValueError for an unreadable length; the decoding error when the CONTENT_LENGTH value is not UTF-8; the endless loop when the stream ends too early |
| Scgi.ParseIntMeans | apache-httpd/pocs/run_pocs.py:925 | the length is read exactly from a numeral with an optional sign and white space around it, digits with single underscores between them, and has its decimal value |
| Scgi.SlicesAt | apache-httpd/pocs/run_pocs.py:928-929 | the slices up to and from an index, negative ones counted from the end, make up the whole |
| Scgi.SplitMeans | apache-httpd/pocs/run_pocs.py:930 | the parts are the only ones without a zero byte that join to the header block |
| Scgi.PairsKeepLast | apache-httpd/pocs/run_pocs.py:931 | the map holds of each name, at an even place with a part behind it, the value behind the last one |
| Scgi.ObservedExactly | apache-httpd/pocs/run_pocs.py:941 | a request is recorded whole unless it has a CONTENT_LENGTH whose value is not the UTF-8 encoding of any sequence of scalar values; then decoding raises |
| Scgi.ArrivalsExactly | apache-httpd/pocs/run_pocs.py:922-927 | those arrivals are exactly the ones that some sequence of receive calls ends in |
| Scgi.RequestRoundTrip | apache-httpd/pocs/run_pocs.py:921-943 | at whatever point the headers are cut off, an encoded request with NUL-free headers gives back its header map and body, or the decoding error exactly when its CONTENT_LENGTH value encodes no text |
| Scgi.OutcomeOfRequest | apache-httpd/pocs/run_pocs.py:941 | the request comes back without a CONTENT_LENGTH and with any ASCII value of it; a value that starts with 0xFF raises |
| Scgi.ShortRequest | apache-httpd/pocs/run_pocs.py:920-943 | a request given in bytes, with CONTENT_LENGTH 16 alone and any body: 22 bytes are needed, and at every later arrival it is handled as that map and body |
| Scgi.HandleEncoded | apache-httpd/pocs/run_pocs.py:920-943 | the same of the handler itself, for every chunking |
| Scgi.DistinctHeadersAreKept | apache-httpd/pocs/run_pocs.py:930-931 | with distinct names the map holds exactly the headers that were sent |
| Scgi.PrefixIsSafeExactly | apache-httpd/pocs/run_pocs.py:922-929 | a length prefix makes the outcome independent of chunking, whatever follows, if and only if its number is non-negative or at most -4096 |
| Scgi.UnsafePrefixes | apache-httpd/pocs/run_pocs.py:922-929 | a minus sign and any number from 1 to 4095 is a prefix that makes the outcome depend on chunking |
| InternetChecksum.Ipv4Checksum | openbsd-bin/pocs/poc_016.py:14-20 | the padding, folding and complementing loop terminates with the specified checksum |
| InternetChecksum.SumOfJoined | openbsd-bin/pocs/poc_016.py:17 | the sum of two even-length parts is the sum of their sums |
| InternetChecksum.SumOfWord | openbsd-bin/pocs/poc_016.py:17 | the sum of one word is 256 times its first byte plus its second |
| InternetChecksum.OddLength | openbsd-bin/pocs/poc_016.py:15-17 | a header of odd length has the checksum of the header with a zero byte behind it, and its last byte counts 256 times |
| InternetChecksum.MinimalHeader | openbsd-bin/pocs/poc_016.py:27-32 | the header that the frame is built from has the checksum 0xF6CD |
| InternetChecksum.ChecksumIsComplement | openbsd-bin/pocs/poc_016.py:14-20 | the checksum is the only 16-bit value that makes the sum a multiple of 65535 and is 0xFFFF exactly for the zero sum |
| InternetChecksum.ChecksumOfSwapped | openbsd-bin/pocs/poc_016.py:14-20 | byte-order independence: the checksum of the byte-swapped header is the byte-swapped checksum |
| InternetChecksum.SwappedBytes | openbsd-bin/pocs/poc_016.py:17 | the byte-swapped header exchanges the bytes at places 2i and 2i + 1 |
| InternetChecksum.WordsOfWithWord | openbsd-bin/pocs/poc_016.py:33 | writing a word into the header changes that word and no other |
| InternetChecksum.InsertedChecksumVerifies | openbsd-bin/pocs/poc_016.py:29-33 | in a zero word of any even-length header, exactly the computed checksum (and 0xFFFF for a computed 0) makes the result verify |
| InternetChecksum.ChangedWordDetected | openbsd-bin/pocs/poc_016.py:14-20 | one changed word of a verifying header goes unnoticed if and only if it swaps the two 16-bit zeros |
| FcgiHeaders.FcgiGetHeadersPatched | openbsd-bin/pocs/poc_009.py:24-34 | verdict and rest of the scan |
| FcgiHeaders.FcgiGetHeadersOld | openbsd-bin/pocs/poc_009.py:11-21 | the same rest always, and True exactly for verdict 1 |
| FcgiHeaders.ScanLine | openbsd-bin/pocs/poc_009.py:24-34 | in bytes: a first line of 0x0D only gives 1, another one without 0x3A gives -1, one with it goes on behind it, and without 0x0A the answer is 0 |
| FcgiHeaders.ScanMeans | openbsd-bin/pocs/poc_009.py:24-34 | the answer in terms of lines: header lines, then a blank, a malformed or an unfinished line, both directions |
| FcgiHeaders.ScanResumes | openbsd-bin/pocs/poc_009.py:24-34 | extra bytes never change a decided verdict, and an undecided scan goes on from its rest |
| FcgiHeaders.FeedIsScan | openbsd-bin/pocs/poc_009.py:24-34 | feeding the input in any chunks gives the answer for the whole input |
| SockJsFrames.ReadLoop | pushpin/poc/007-sockjs-frames/poc.cpp:55-84 | the loop terminates, and its effect on session and queue is one function of their state |
| SockJsFrames.RunMoves | pushpin/poc/007-sockjs-frames/poc.cpp:55-84 | an unblocked run moves, in order and without loss, the shortest prefix ending in a final frame, or the whole queue, unless an oversized frame comes first, which is dropped with the error flag set; inBytes never changes |
| SockJsFrames.RunInBytes | pushpin/poc/007-sockjs-frames/poc.cpp:55-84 | below 200,000 buffered bytes and with no message waiting, non-final frames of at most 400,000 bytes are moved; then a final one of that size is moved as well, a larger one is dropped with the error flag set, or the queue is empty |
| SockJsFrames.BlockedStays | pushpin/poc/007-sockjs-frames/poc.cpp:56-62 | from 200,000 bytes on, or with a final frame waiting, nothing is read |
| SockJsFrames.BurstsAgreeExactly | pushpin/poc/007-sockjs-frames/poc.cpp:55-84 | two bursts give the state of one delivery if and only if the first drops no frame, or drops the last frame there is |
| PercentDecoding.ParsePercentEncoding | pushpin/poc/015-jsonp-callback/poc.cpp:23-45 | the loop computes the decoding |
| PercentDecoding.HexReadsDigits | pushpin/poc/015-jsonp-callback/poc.cpp:29-34 | a byte has the value v exactly when it is the hexadecimal digit for v in either case; any other byte has none |
| PercentDecoding.DecodeFront | pushpin/poc/015-jsonp-callback/poc.cpp:26-42 | a percent sign with two such digits behind it decodes to 16 times the first plus the second; anything else in front passes unchanged |
| PercentDecoding.DecodedLength | pushpin/poc/015-jsonp-callback/poc.cpp:26-41 | each well-formed escape of the input, at whatever position, shortens the output by two |
| PercentDecoding.UnchangedExactly | pushpin/poc/015-jsonp-callback/poc.cpp:26-42 | text passes unchanged if and only if it holds no well-formed escape; malformed and truncated ones pass |
| PercentDecoding.DecodeUndoesSafeEncoders | pushpin/poc/015-jsonp-callback/poc.cpp:23-45 | decoding undoes every mix of raw bytes and escapes in either case that never writes a percent sign raw |
| PercentDecoding.DecodeUndoesExactly | pushpin/poc/015-jsonp-callback/poc.cpp:23-45 | with raw percent signs allowed, it undoes the encoding if and only if none of them reads as an escape |
| DoasLog.DoasLogOld | openbsd-bin/pocs/poc_003.py:13-22 | for every non-empty argv exactly the first LINE_MAX - 1 characters of the space-joined argv |
| DoasLog.DoasLogPatched | openbsd-bin/pocs/poc_003.py:25-36 | the whole join when it is shorter than LINE_MAX, and ValueError exactly otherwise |
| DoasLog.JoinOfBoth | openbsd-bin/pocs/poc_003.py:13-22 | joining two lists of arguments puts one space between their joins |
| DoasLog.HiddenExactly | openbsd-bin/pocs/poc_003.py:13-36 | the truncating logger returns the join, cut off at 2047 characters; the patched logger returns the same up to that length and raises ValueError beyond; so nothing is hidden if and only if it returns |
| DoasLog.StrlcatFits | openbsd-bin/pocs/common.py:46-56 | on a fitted line, strlcat is appending and fitting again, and its count tells whether something was cut off |
| DoasLog.StrlcatAppends | openbsd-bin/pocs/common.py:52-56 | for every size: appending cut off at size - 1 characters, nothing appended to a destination that has size or more, and the wanted length as the count |
| WideningMul.SignedIsExact | rust-stdlib/pocs/182-unchecked-isize-widening-arithmetic-overflows.rs:17-20 | the i128 form never overflows, and low + 2^64 * high is a * b + c + d on every input |
| WideningMul.FormsAgree | rust-stdlib/pocs/182-unchecked-isize-widening-arithmetic-overflows.rs:9-20 | the wrapping u128 form returns the same pair on every input |
| WideningMul.CheckedOverflowsExactly | rust-stdlib/182-unchecked-isize-widening-arithmetic-overflows.md:28-63 | the checked u128 expression overflows if and only if one factor is negative and the other neither 0 nor 1, or two operands have wrapped, or one has and the exact result is not negative |
| WideningMul.CheckedIsExact | rust-stdlib/182-unchecked-isize-widening-arithmetic-overflows.md:28-63 | where it does not overflow it has the result of the signed form |
| WideningMul.ProductOverflowsExactly | rust-stdlib/182-unchecked-isize-widening-arithmetic-overflows.md:47-55 | its product alone overflows if and only if one operand is negative and the other neither 0 nor 1 |
| WideningMul.MinusOneSquared | rust-stdlib/182-unchecked-isize-widening-arithmetic-overflows.md:43-55 | at -1 times -1 the checked u128 expression overflows, while the signed and the wrapping unsigned form both give low word 1 and high word 0 |
| SpinMutex.RunIsSafe | rust-stdlib/pocs/107-spin-mutex-bypasses-inter-core-lock.rs:30-41 | in every run whose entrants see dispatching enabled, the lock is set exactly while there is one owner, at most one thread is in its closure, and the data is the closures applied in order |
| SpinMutex.RunHasOneOwner | rust-stdlib/pocs/107-spin-mutex-bypasses-inter-core-lock.rs:30-41 | in every run, bypassers included, the lock is set exactly while one thread is between its swap and its store, and no other is: a bypasser never clears it |
| SpinMutex.LockedCall | rust-stdlib/pocs/107-spin-mutex-bypasses-inter-core-lock.rs:30-41 | from a free lock an undisturbed call takes its five steps, applies its closure once to the data, and leaves the lock free |
| SpinMutex.BypassingCall | rust-stdlib/pocs/107-spin-mutex-bypasses-inter-core-lock.rs:30-41 | a call that sees dispatching disabled applies its closure once whether the lock is set or not, and leaves it as it was |
| SpinMutex.LockedOutSpins | rust-stdlib/pocs/107-spin-mutex-bypasses-inter-core-lock.rs:33 | the swap of a set lock changes nothing |
| SpinMutex.ExclusiveExactly | rust-stdlib/pocs/107-spin-mutex-bypasses-inter-core-lock.rs:30-41 | all runs exclude if and only if no two threads share the lock of which one can see dispatching disabled |
| SpinMutex.CounterExactly | rust-stdlib/pocs/107-spin-mutex-bypasses-inter-core-lock.rs:30-41 | a counter loses no update in any run under exactly the same condition |

## Left out

- SpinMutex: modelled as a state machine over values, because one execution of the method cannot show contention; memory orderings weaker than sequential consistency, and progress of the spin loop, are not captured.
- Scgi.Handle: does not model the one-second receive timeout, which can end the body early, nor the reply it sends, nor Python's limit on the number of digits that `int` accepts. A recv loop that never ends because the stream has ended is the outcome `Stuck`.
- Http2Frames.MismatchLoop: does not model the five-second deadline, the connection preface or the request that precede the loop.
- Hpack: names and values are byte strings; the encoding of text to bytes is not modelled, and the decoder handles only literals without indexing, new names and no Huffman coding, which is all that the encoder writes.
- PriorityOrder: weights are 1 to 256 and ids 31 bits wide, as RFC 7540 has them; the nghttp2 stream type behind the accessors is not part of this model, so a forest is a parent map with a weight for each stream.
- SockJsFrames: frame and queue sizes are unbounded, without the casts to a 32-bit int.
- InternetChecksum: of the frame around it, only writing a word into the header is modelled; the UDP bounds checks are single comparisons.
- PercentDecoding: the surrounding JSONP callback handling is string concatenation.
- Everything that drives servers, prints, or calls the operating system, and the one-line before/after checks elsewhere in the repository, are not modelled.
