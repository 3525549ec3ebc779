# tracelogs record handling, in Dafny

This project models the pure record-handling core of `tracelogs`, a tool that
collects log output from several hosts. It parses each entry into a `LogLine`
and merges, filters and reads the entries as one chronologically ordered stream.
The model covers four parts:

- `LogLine` and the total order Rust derives for it: timestamp, then hostname,
  then service, then message. Strings compare lexicographically by code point
  (module `Ordering`, module `LogLines`).
- The sort that `merge` applies. It is modelled as an insertion sort on
  sequences. The model proves that a sorted permutation is unique, so it
  matches Rust's `slice::sort` (module `Sorting`).
- The word tests of the `Tracer` trait: `str::contains`, `includes` and
  `excludes` (module `Tracer`).
- `Logs`, a record sequence with a read cursor, and its operations `new`,
  `merge`, `filter_logs` and `Iterator::next` (module `LogStream`).

Two further parts sit around these:

- `split_keep`. It cuts a text around the matches of a delimiter pattern and
  keeps each match as its own segment (module `Split`). The regex engine is not
  modelled. What it yields through `match_indices` is an input: ascending,
  non-overlapping `(start, len)` pairs that lie inside the text.
- The integer arithmetic of `RegExtractor::timestamp_micros` and of
  `LogLine::date` (module `Timestamp`).

`LogLine::new` is the datatype constructor `LogLine(...)`. `Logs::from` is
`New` applied to the records a source yields. Everything is pure functions over
immutable values, except `SplitKeep`, which is a method with a loop.

Rust's `i64` timestamp is the subset type `I64`. Rust's `/` and `%` truncate
toward zero, and the model writes them out as `TruncDiv` and `TruncRem`. The
cursor `line_idx` is a `nat`, because no operation can move it past the end of
the records.

## Model

| member | source | states |
|---|---|---|
| `Ordering.CmpStr` | src/logs/lib.rs:11-16 | Two strings compare `Equal` exactly when they are identical. `a` compares `Less` than `b` exactly when it sorts first in the reference order, and `Greater` exactly when `b` does. In that order `a` is a proper prefix of `b`, or `a` has the smaller character at the first position where they differ. |
| `Ordering.CmpStrTransitive` | src/logs/lib.rs:11-16 | The strict string order is transitive. |
| `LogLines.Compare` | src/logs/lib.rs:11-17 | Two records compare equal exactly when all four fields are equal. One record sorts before another exactly when it has the smaller timestamp. On equal timestamps the smaller hostname decides, then the smaller service, then the smaller message. `Greater` is the same test with the records swapped. |
| `LogLines.CompareReverse` | src/logs/lib.rs:11-17 | Comparing the records the other way round reverses the answer. |
| `LogLines.LeTotal` | src/logs/lib.rs:11-17 | Any two records are comparable. |
| `LogLines.LeAntisymmetric` | src/logs/lib.rs:11-17 | Two records that each sort no later than the other are the same record. |
| `LogLines.LeTransitive` | src/logs/lib.rs:11-17 | The record order is transitive. |
| `Sorting.Insert` | src/logs/lib.rs:62 | Inserting into a sorted sequence keeps it sorted and adds exactly that one record. |
| `Sorting.Sort` | src/logs/lib.rs:62 | The sorted sequence is ascending and is a permutation of the input, with the same multiset of records. |
| `Sorting.SortedUnique` | src/logs/lib.rs:62 | Two ascending sequences with the same multiset of records are equal. So every correct sort, including Rust's stable sort, gives the same result. |
| `Sorting.SortIdempotent` | src/logs/lib.rs:62 | Sorting a sorted sequence changes nothing. Sorting twice is the same as sorting once. |
| `Tracer.Contains` | src/logs/lib.rs:107 | `contains` holds exactly when the word occurs at some position of the message. The empty word occurs in every message. |
| `Tracer.Includes` | src/logs/lib.rs:106-108 | `includes` holds exactly when every word occurs somewhere in the message. With no words it holds. |
| `Tracer.Excludes` | src/logs/lib.rs:110-112 | `excludes` holds exactly when some word occurs somewhere in the message. With no words it does not hold. |
| `LogStream.New` | src/logs/lib.rs:49-51 | A new stream starts at the first record. Reading it gives back the records exactly as given, with no sorting. |
| `LogStream.Next` | src/logs/lib.rs:78-87 | While the cursor is before the end, `next` returns the record under the cursor and advances the cursor by one. At the end it returns `None` and leaves the stream unchanged. The records never change. |
| `LogStream.Drain` | src/logs/lib.rs:76-88 | Calling `next` until it returns `None` yields exactly the records from the cursor onward, in order. An exhausted stream yields nothing. |
| `LogStream.ExhaustedStaysExhausted` | src/logs/lib.rs:78-87 | Once the cursor is at the end, any number of further `next` calls changes nothing and keeps returning `None`. |
| `LogStream.AdvanceFresh` | src/logs/lib.rs:78-87 | After `k` calls of `next` on a fresh stream, the cursor is at `k` and the records are unchanged. |
| `LogStream.Merge` | src/logs/lib.rs:60-64 | The merged stream starts at the first record. Its records are ascending and are exactly the records of both inputs, as a multiset. |
| `LogStream.MergeCharacterised` | src/logs/lib.rs:60-64 | The merged records are the one ascending arrangement of the records of both inputs. So they depend only on those records, not on the inputs' cursors or order. |
| `LogStream.MergeCommutative` | src/logs/lib.rs:60-63 | `merge(A, B)` and `merge(B, A)` hold the same sequence of records. |
| `LogStream.MergeWithEmpty` | src/logs/lib.rs:60-64 | Merging a sorted stream with an empty stream gives back its records unchanged. |
| `LogStream.Filter` | src/logs/lib.rs:67-70 | `Iterator::filter` keeps an order-preserving subsequence. Each record occurs in it as often as in the input when the predicate holds of it, and otherwise not at all. |
| `LogStream.FilterLogs` | src/logs/lib.rs:66-73 | `filter_logs` returns a fresh stream at its first record. It keeps, in input order, exactly the records whose message contains every include word and no exclude word, each as often as in the input. |
| `LogStream.FilterAll` | src/logs/lib.rs:67-70 | A filter whose predicate holds of every record returns the sequence unchanged. |
| `LogStream.FilterNothing` | src/logs/lib.rs:66-73 | With no include words and no exclude words, `filter_logs` keeps every record in the original order. |
| `Split.SplitKeep` | src/logs/lib.rs:208-222 | Concatenating the segments gives back the text exactly. The segments are the texts of the spans that the matches lay out. |
| `Split.LayoutShape` | src/logs/lib.rs:211-220 | Every segment lies inside the text. No gap segment and no trailing segment is empty. The match segments are exactly the matches, in match order. |
| `Split.BodyHits` | src/logs/lib.rs:211-217 | The match segments the loop emits are exactly the matches, in order. |
| `Split.BodyPlaced` | src/logs/lib.rs:211-217 | The loop's segments lie inside the text, and it never emits an empty gap. |
| `Split.StepShape` | src/logs/lib.rs:212-216 | One turn of the loop emits at most one non-empty gap, followed by that turn's match. |
| `Split.SplitKeepNoMatch` | src/logs/lib.rs:208-222 | With no matches the result is `[text]` when the text is non-empty and `[]` when it is empty. |
| `Timestamp.TruncDiv` | src/logs/lib.rs:27 | Rust's integer `/` rounds toward zero. The quotient's magnitude is the floor quotient of the magnitudes, and its sign follows the dividend. |
| `Timestamp.TruncRem` | src/logs/lib.rs:28 | Rust's integer `%` returns the remainder that goes with the truncated quotient. It is smaller than the divisor in magnitude and takes the sign of the dividend. |
| `Timestamp.TimestampMicros` | src/logs/lib.rs:201-205 | The result is seconds times one million plus the sub-second microseconds. It is `None` exactly when the multiplication or the addition leaves `i64`, which is where a debug build panics. |
| `Timestamp.DateRoundTrip` | src/logs/lib.rs:201-205 | For a sub-second part below one second, converting seconds and microseconds to a timestamp and reading the date back returns the same seconds and sub-second part. |
| `Timestamp.TimestampMonotonic` | src/logs/lib.rs:203 | For sub-second parts below one second, ordering by microsecond timestamp is the same as ordering by seconds first and then by the sub-second part. |
| `Timestamp.LeapSecondCollides` | src/logs/lib.rs:203 | During a leap second the sub-second part is one second or more. The timestamp then equals that of the same offset into the next second, and the date reads back as that next second. |
| `Timestamp.LeapSecondSortsLate` | src/logs/lib.rs:203 | A record stamped inside a leap second gets a larger timestamp than a record at a smaller offset into the next second, although it happened earlier. |
| `Timestamp.DateAsWritten` | src/logs/lib.rs:26-30 | For a non-negative timestamp, `date` as written gives seconds as the timestamp divided by one million. It gives nanoseconds as the timestamp modulo one billion. The nanoseconds always fit a `u32`. |
| `Timestamp.Date` | src/logs/lib.rs:26-30 | The intended `date` gives a sub-second part below one second in whole microseconds. Seconds times one million plus that part gives back the timestamp. `TimestampMicros` reproduces the timestamp exactly when it is at least -9_223_372_036_854_000_000. Below that, seconds times one million leaves `i64` and the conversion overflows. |
| `Timestamp.DateAsWrittenMisreads` | src/logs/lib.rs:28 | A timestamp 1.5 s after the epoch reads as 1 s plus 1.5 ms under `date` as written. The intended reading is 1 s plus 500 ms. |
| `Timestamp.DateAsWrittenNegative` | src/logs/lib.rs:27-28 | One microsecond before the epoch, `date` as written produces a nanosecond count of at least two billion, which chrono refuses. |
| `Timestamp.DateAsWrittenSecondsAgree` | src/logs/lib.rs:27 | For non-negative timestamps, the seconds of `date` as written are correct. |

## Left out

- `read_proc` and `read_remote_proc` (src/logs/lib.rs:127-148) are not modelled. They spawn processes, open SSH sessions and decode bytes lossily, which is I/O and foreign code.
- `Tracer::header` and `print_line` are not modelled. They only render colour codes and print to the terminal.
- `RegExtractor::new` and `get_fields` are not modelled. They are template substitution through `strfmt` and regex compilation and capture, which are library code. `new` also panics through `unwrap` on a bad scheme.
- The regex engine is not modelled. `Split.SplitKeep` takes the output of `match_indices` as an input sequence whose order and bounds are preconditions.
- Chrono's date parsing and formatting are not modelled, in `timestamp_micros` or in `LogLine::date`. Only their integer arithmetic is modelled. The parsed date-time arrives as seconds plus sub-second microseconds.
- `Logs::from` and the `LogSource` trait are not modelled separately. `from` is `New` applied to the records the source yields.
- Split.SplitKeep: positions index a sequence of characters, not the UTF-8 byte offsets Rust uses. Regex matches always fall on character boundaries, so the segmentation is the same.
- Timestamp.DateRoundTrip: the sub-second part is limited to below one second. Inside a leap second chrono reports one second or more, and the round trip then yields the next second instead. `Timestamp.LeapSecondCollides` states what happens there.
- Timestamp.TimestampMonotonic: the sub-second parts are limited to below one second. Across a leap second the microsecond timestamp is not monotonic, and `Timestamp.LeapSecondSortsLate` states the misordering.
- Timestamp.TimestampMicros: in a release build the arithmetic wraps instead of panicking. The model treats overflow as the debug-build panic, `None`. Chrono's date range keeps real inputs far from overflow.

## Findings

| source | as written | input that shows it | evidently intended | confidence | as-written member | corrected member |
|---|---|---|---|---|---|---|
| src/logs/lib.rs:28 | `nsecs = timestamp % 1000000000` applied to a microsecond timestamp | timestamp 1_500_000 (1.5 s after the epoch) gives 1 s plus 1_500_000 ns | `nsecs = (timestamp % 1_000_000) * 1_000`, that is 500_000_000 ns | high; not executed | `Timestamp.DateAsWritten`, `Timestamp.DateAsWrittenMisreads` | `Timestamp.Date` (round trip in `Timestamp.DateRoundTrip`) |
| src/logs/lib.rs:27-28 | truncating `/` and `%`, then a cast of the negative remainder to `u32` | timestamp -1 gives 0 s plus 4_294_967_295 ns, which `from_timestamp` refuses | floor division, giving -1 s plus 999_999_000 ns | medium; not executed | `Timestamp.DateAsWritten`, `Timestamp.DateAsWrittenNegative` | `Timestamp.Date` |
