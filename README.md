# Bottle-sound detector: verified model of its parsing and sample collection

The repository holds two scripts that look for the sound of toppled bottles in conference recordings.
`detector.py` is interactive. It takes a start offset and a duration as strings such as `17m9s` or
`300ms`, decodes that stretch of an audio file into a buffer and shows a spectrogram. `selector.py`
is the batch version. It reads an annotation file of `MM:SS-MM:SS   label` lines and collects one
buffer per annotated span.

This project models the self-contained logic of the two scripts and proves properties of it:

- `TimeSpec`: `parse_time`, the duration-string parser of `detector.py`. Its fixed-order grammar
  `[D+m][D+s][D+ms][D+t]` is stated as a predicate over strings. The parser is proved to accept
  exactly that language, to yield the decimal value of each present segment (zero for an absent one),
  and to invert the printing of every non-zero tuple.
- `Decimal`: ASCII digit strings and the value `int(...)` gives them. It also holds the two regular
  expression pieces both patterns rely on.
- `Times`: the `(minutes, seconds, milliseconds, ticks)` tuple and its value in seconds.
- `Audio`: decoded frames, the seek filter, the zero-padded buffer the collectors are meant to
  produce, Python's `s[:stop]`, and numpy's slice assignment (copy, broadcast or exception).
- `Detector`: the collector of `detector.py`, modelled as written, with its faulty overflow cut.
  It is a method over an `array` with nested loops over packets and frames. It is proved equal to a
  recursive specification `Outcome`. `Outcome` is then compared with the intended buffer: the
  detector produces it exactly when no frame crosses the end of the buffer, or when the crossing
  frame is twice as long as the room left for it, or one longer with its leading samples (as many
  as the room) all equal.
- `Selector`: the `min`-window collector of `selector.py`, proved to leave the accepted samples cut
  to the buffer length and followed by zeros. It also models the start/end-to-length arithmetic
  and the main loop over the annotations.
- `Annotations`: the annotation-file reader of `selector.py`. It turns the lines of the file into
  the list `times`, keeping file order, one record per matching line.

Frames, packets and lines are given as input sequences. The sample type is a type parameter with an
explicit zero value.

Details of the code the model keeps:

- Python's `$` also matches just before one final newline. So `parse_time` accepts `"30m\n"`, and it
  accepts `"\n"` as `(0, 0, 0, 0)`, because the empty-string guard compares against `""` only
  (`TimeSpec.LoneNewlineAccepted`). For the same reason an annotation line keeps matching with the
  newline `readlines` leaves on it.
- The detector's overflow branch does not copy the part of the frame that fits: the cut keeps
  `n-(L-i)` samples instead of `L-i`. numpy never writes past the buffer; it copies the cut when
  the lengths agree, broadcasts it when it has length one, and raises otherwise (see Findings).
- The detector's `break` in the overflow branch leaves only the frame loop. Collection still stops,
  because the guard `i >= sample.shape[0]` ends the packet loop next.
- The annotation pattern asks for exactly three spaces after the end time, followed by any text
  without a newline.

## Model

| member | source | states |
|---|---|---|
| `TimeSpec.ParseTime` | detector.py:22-38 | `parse_time` itself (no contract of its own): the empty string raises, otherwise `$` strips one final newline, the rest is split into segments and each present segment is read with `int`; what it accepts and returns is stated by `ParseTimeAcceptsGrammar`, `ParseSpelled` and `ParseFormat` |
| `TimeSpec.ParseTimeAcceptsGrammar` | detector.py:22-25 | `parse_time` succeeds exactly on the non-empty strings made of optional `D+m`, `D+s`, `D+ms`, `D+t` segments in that order, optionally followed by one newline; every other string raises |
| `TimeSpec.ParseSpelled` | detector.py:27-38 | a string spelled from segments parses to the decimal value of each present segment and 0 for each absent one |
| `TimeSpec.SpellInjective` | detector.py:23 | two segment choices that spell the same string are equal, so every accepted string splits into segments in only one way |
| `TimeSpec.ParseFormat` | detector.py:22-38 | round trip: writing a tuple with a non-zero component as its non-zero segments in order and parsing that string gives the tuple back |
| `TimeSpec.ExamplesRejected` | detector.py:24-25 | `""` and `"xyz"` raise |
| `TimeSpec.ExampleOutOfOrder` | detector.py:23-25 | `"11s30m"` raises: the segments must come in the order m, s, ms, t |
| `TimeSpec.ExampleMinutesSeconds` | detector.py:25-38 | `"30m11s"` gives (30, 11, 0, 0) |
| `TimeSpec.ExampleSeconds` | detector.py:25-38 | `"28s"` gives (0, 28, 0, 0) |
| `TimeSpec.ExampleTicks` | detector.py:25-38 | `"12392424t"` gives (0, 0, 0, 12392424) |
| `TimeSpec.ExampleMilliseconds` | detector.py:23-32 | `"300ms"` gives (0, 0, 300, 0); `ms` is not read as minutes followed by seconds |
| `TimeSpec.ExampleAllButSeconds` | detector.py:25-38 | `"4m300ms90090t"` gives (4, 0, 300, 90090) |
| `TimeSpec.LoneNewlineAccepted` | detector.py:23-24 | a lone newline passes both the match and the empty-string guard and gives (0, 0, 0, 0) |
| `TimeSpec.Tokenize` | detector.py:23 | splitting into digit runs and unit runs yields valid tokens whose concatenation is the input |
| `TimeSpec.TokenizeJoin` | detector.py:23 | the split is the inverse of concatenating valid tokens |
| `Decimal.Value` | detector.py:30-36 | Python's `int(...)` on an ASCII digit string, leading zeros allowed; the value of k digits is below 10^k, and `ValueOfNumeral` and `ValueLeadingZero` pin it down |
| `Decimal.ValueOfNumeral` | detector.py:30-36 | `int` of the decimal spelling of n is n |
| `Decimal.ValueLeadingZero` | selector.py:26-29 | a leading zero does not change the value (`int("05") == 5`) |
| `Decimal.StripFinalNewline` | detector.py:23 | what `$` leaves to match: the string itself, or the string without its one final newline exactly when it ends in one |
| `Decimal.DigitRunOf` | selector.py:22 | `\d+` takes the whole run of digits and stops at the first non-digit |
| `Times.Seconds` | selector.py:52-57 | the offset `ticks/AV_TIME_BASE + ms/1000 + s + 60*m`, computed exactly, is at least the whole seconds and equals them exactly when milliseconds and ticks are zero |
| `Audio.Skipped` | detector.py:115-118 | the seek filter (no contract of its own): a frame is skipped exactly when a seek offset is given and the frame's time is before it; `AcceptedSamplesFrame` states what the collectors then take from a frame |
| `Audio.Fill` | selector.py:75-103 | the intended buffer has length n and holds the i-th accepted sample at position i below the sample count, zero elsewhere |
| `Audio.SliceTo` | detector.py:128 | Python's `s[:stop]` is a prefix; a negative stop `-k` keeps `len(s) - k` elements |
| `Audio.SliceValue` | detector.py:128 | numpy stores a source into a slice exactly when the lengths agree (element by element) or the source has one element (broadcast); otherwise it raises with both shapes |
| `Audio.AssignSlice` | detector.py:128-132 | `a[lo:hi] = source` changes only positions lo to hi, to exactly what `SliceValue` gives, and changes nothing when it raises |
| `Detector.Outcome` | detector.py:126-133 | the buffer the as-written copy leaves from the cursor on, when it does not raise, has exactly the room that was left |
| `Detector.OverflowBranch` | detector.py:127-130 | the cut `frame[:i-L]` keeps `n-(L-i)` samples; the store succeeds iff `n == 2(L-i)` or `n == L-i+1`, and stores the correct first `L-i` samples iff `n == 2(L-i)` or the broadcast happens to repeat them |
| `Detector.OutcomeWhenFits` | detector.py:131-133 | when all accepted samples fit, the detector leaves them followed by zeros |
| `Detector.OutcomeAgainstFill` | detector.py:126-133 | the detector leaves the intended buffer iff no frame crosses the end, or the crossing frame is twice its room, or one longer with equal leading samples; it raises iff a crossing frame has any other length |
| `Detector.OverflowRaises` | detector.py:128 | L=1 and one frame [1,2,3]: the detector raises (source shape 2, target 1), where the intended buffer is [1] |
| `Detector.OverflowBroadcasts` | detector.py:128 | L=3 and one frame [1,2,3,4]: the detector leaves [1,1,1], where the intended buffer is [1,2,3] |
| `Detector.FixedOutcomeIsFill` | detector.py:126-133 | with the cut at line 128 taken as `frame_sample[:sample_length-i]`, the detector never raises and always leaves the accepted samples cut to the buffer, then zeros |
| `Detector.TakeFrame` | detector.py:115-133 | a skipped frame, or any frame with the cursor at L, changes nothing; a frame that fits is written to `[i, i+n)` only and the cursor moves by n; the overflow branch stores the cut into `[i, L)`, sets the cursor to L and breaks, or raises and leaves the buffer unchanged |
| `Detector.TakePacket` | detector.py:107-133 | the frame loop of one packet keeps the collector's invariant, or ends with the exception `Outcome` predicts |
| `Detector.Collect` | detector.py:83-133 | the zeroed buffer of length L ends as `Outcome` of the accepted frames; the method fails exactly when `Outcome` is the exception; without failure the cursor is the number of accepted samples capped at L |
| `Selector.TakeFrame` | selector.py:91-103 | a frame before the seek offset changes neither buffer nor cursor; otherwise exactly its first `window_end - i` samples go to `[i, window_end)` with `window_end = min(i+n, L)`, nothing else changes, and the cursor never decreases or passes L |
| `Selector.TakePacket` | selector.py:83-103 | the frame loop of one packet moves every accepted frame's window into the buffer, keeping the collector's invariant, and the cursor never decreases or passes L |
| `Selector.Collect` | selector.py:75-103 | the buffer ends as the accepted frames' samples cut to L and followed by zeros; the cursor ends at the number of accepted samples capped at L |
| `Selector.Duration` | selector.py:49-71 | for whole-second times the duration is `(60*m2+s2) - (60*m1+s1)`, equal to the difference of the two offsets in seconds |
| `Selector.SampleLength` | selector.py:71-75 | for whole-second times the buffer length is `rate * (end - start)`; np.zeros raises iff that is negative, that is iff the rate is non-zero and the span ends before it starts |
| `Selector.RecordsAreWhole` | selector.py:31-34 | every record read from the file has zero milliseconds and ticks |
| `Selector.Selection` | selector.py:71-103 | one iteration yields a buffer exactly when its length is not negative, and the buffer has that length |
| `Selector.Run` | selector.py:48-103 | for annotations in whole seconds, as every record read from the file is, the k-th buffer is the intended buffer for the k-th annotation; the run ends early exactly when an annotation's length is negative, with that error |
| `Annotations.ParseLine` | selector.py:22-34 | a record from a line always has zero milliseconds and ticks |
| `Annotations.ParseLineMatchesPattern` | selector.py:22-24 | a line yields a record exactly when it matches `^(\d+):(\d+)-(\d+):(\d+)   .*$` |
| `Annotations.ParseSpelledLine` | selector.py:26-34 | a matching line yields `((int(m1), int(s1), 0, 0), (int(m2), int(s2), 0, 0))` |
| `Annotations.ExampleLine` | selector.py:22-34 | `"12:30-13:05   some label\n"` yields (12, 30, 0, 0) to (13, 5, 0, 0) |
| `Annotations.ShortGapRejected` | selector.py:22-24 | a line, with or without its final newline, with fewer than three spaces (zero, one or two) between the end time and a label that does not go on with a space yields no record (with no space, the label must not go on with a digit either, else the digits would join the end seconds) |
| `Annotations.RecordsOfMatchingLines` | selector.py:19-34 | there are as many records as matching lines; the k-th record comes from the k-th matching line; matching lines are taken in file order and none is missed |
| `Annotations.RecordsAppend` | selector.py:21-34 | the records of two consecutive parts of the file are those of the first part followed by those of the second |
| `Annotations.RecordsSkipLine` | selector.py:22-24 | a line that does not match adds no record, wherever it stands |
| `Annotations.Records` | selector.py:19-34 | the list `times` (no contract of its own): the records of the matching lines; `RecordsOfMatchingLines` states that it has one record per matching line, in file order, and misses none, and `ReadTimes` that the source's loop builds it |
| `Annotations.ReadTimes` | selector.py:19-34 | the loop appending one record per matching line builds exactly `Records(lines)` |

## Left out

- Command-line parsing (`argparse`, the global `args`), the verbose printing and `exit(1)` after a
  parse error are not modelled. They are interface plumbing around the modelled functions.
- `av.open`, stream discovery, `container.seek`, `demux` and `decode` are not modelled. They are
  calls into PyAV. The packets and their frames are given inputs. The packets for each annotation
  of the batch script are a separate input, since the seek decides what `demux` yields.
- `np.fromstring(..., dtype='<f4')` is not modelled. A frame is given as its decoded sample sequence.
- Floating point is not modelled. Offsets are computed exactly in `real`, and frame times are reals.
  `int(seek_to_secs * AV_TIME_BASE)` only feeds the seek, which is left out.
- Detector.Collect: the buffer length is a `nat` parameter rather than `audio_stream.rate * duration`.
  That product is a float from `parse_time(args.duration)` and the stream rate.
- Selector.SampleLength: the length is the integer `rate * (end - start)` in whole seconds, not the
  float product. Every record read from the annotation file has whole seconds
  (`Selector.RecordsAreWhole`), so the two agree there.
- Selector.Run: takes only annotations in whole seconds, the only ones the file reader produces;
  a span with milliseconds or ticks, which the script would size by a float product, is not modelled.
- The code that runs after collection is not modelled: the spectrogram, the FFT code and pyaudio
  playback (output devices and plotting).
- Reading the fixed annotation file path is not modelled. The file is given as its sequence of
  lines, each with the newline `readlines` keeps.
- Python's `\d` also matches non-ASCII digits. Only ASCII digits are modelled.
- A frame whose `time` is `None` is not modelled; every frame here has a time.
- Frames written to the playback stream are not modelled (`stream.write`, detector.py:120-121).
- The detector's start offset is an optional real. The glue that turns `--begin` into it is not modelled
  beyond `parse_time` and `Times.Seconds`.

## Findings

| source | as written | input that shows it | evidently intended | confidence | as-written member | corrected member |
|---|---|---|---|---|---|---|
| detector.py:128 | the overflow branch stores `frame_sample[:i-sample_length]`, a cut whose negative stop keeps `n-(L-i)` samples instead of the `L-i` that fit | L=1 with one frame [1,2,3]: numpy raises (shape 2 into shape 1); L=3 with one frame [1,2,3,4]: the buffer becomes [1,1,1] | store the first `L-i` samples with `frame_sample[:sample_length-i]`, as the batch script's window does, giving [1] and [1,2,3] | not executed; follows from Python's slice and numpy's assignment rules | `Detector.OverflowRaises` | `Detector.FixedOutcomeIsFill` |
