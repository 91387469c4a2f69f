# NanoTube metric formatting and packing, modelled in Dafny

NanoTube is a .NET client library that turns metric events (counters,
timings, samples and key/value readings) into StatsD or Statsite wire lines
and sends them to a collector over UDP. This project models the
deterministic logic under the UDP send path and proves properties of it:

- **PacketBuilder** (`packet_builder.dfy`) packs byte-encoded lines into
  datagrams. Each line gets a trailing `'\n'`, and a datagram holds at most
  `packetSize` bytes (default 512). A line of `packetSize` bytes or more is
  sent alone, unchanged. The packing loop is a method over a byte
  accumulator. It is proved equal to `Packets`, a left fold (`Run`) of the
  loop body (`Step`), followed by a final flush (`Plan`).
- **LinqExtensions.Chunk** (`linq.dfy`) cuts a sequence into batches. The
  loop is a method proved equal to the independent definition `Batches`.
- **KeyHelper** (`key_helper.dfy`) holds the key-validity predicate and
  `Sanitize`. `Sanitize` is a method that fills a `StringBuilder` object
  (a class with a `seq<char>` buffer) and overwrites it by index. It is
  proved equal to the definition `Sanitized`.
- **MetricExtensions** (`metric_extensions.dfy`) is the renderer. It has the
  two per-format renderers, the format switch (`Render`), `ToString` with
  its optional `prefix.` and `ToStrings`. Its partner is a wire-line parser
  (`ParseLine`): rendering a metric and then parsing the line gives back the
  key and fields.
- **Metric** (`metric_factory.dfy`, module `MetricFactory`) is the factory.
  Each constructor checks for a null key, sanitizes the key and stores its
  other arguments.

Supporting files:

- `core.dfy` has the four-way metric union, the format enum, and the
  value types.
  - A .NET `double` is finite, NaN or an infinity.
  - `DateTime` is a tick count.
  - `int32` is a bounded newtype.
- `wrappers.dfy` has `Option` and `Result`.
  - `None` stands for a null reference.
  - `Err` names the .NET exception a call throws, with its parameter name.

Definitions that model the source directly (their properties are in the
table below):

- `PacketBuilder.Step`, `Run`, `Plan`, `Packets`: src/NanoTube/Net/PacketBuilder.cs:34-58.
- `Linq.Batches`: src/NanoTube/Linq/LinqExtensions.cs:21-34.
- `KeyHelper.BadChars`: src/NanoTube/Core/KeyHelper.cs:14.
- `KeyHelper.Excluded`, `KeyHelper.IsWhitespace`: KeyHelper.cs:17.
- `KeyHelper.IsValidKey`: KeyHelper.cs:22-25, as the code evaluates it. Every operation of the model uses this check. The evidently intended rule is `KeyHelper.IsValidKeyIntended` (see Findings).
- `KeyHelper.Sanitized`: KeyHelper.cs:31-54.
- `KeyHelper.StringBuilder`: the .NET `StringBuilder` that `Sanitize` uses at KeyHelper.cs:40-52. It has a constructor from a string, plus `Clear`, `Append`, the indexer's setter `SetAt` and `ToString`.
- `PacketBuilder.EncodeAscii`: `Encoding.UTF8.GetBytes` at PacketBuilder.cs:36, restricted to ASCII text (one byte per character).
- `MetricExtensions.IntToString`: the invariant-culture rendering of an `int` (`{1}` at MetricExtensions.cs:94). It is made of `NatToString` and a leading `'-'`.
- `MetricExtensions.StatsDString`: src/NanoTube/Core/MetricExtensions.cs:77-99.
- `MetricExtensions.StatSiteString`: MetricExtensions.cs:116-141.
- `MetricExtensions.Render`: MetricExtensions.cs:45-56.
- `Core.GreaterThan`: the C# comparison `frequency > 1` at src/NanoTube/Metric.cs:60.

Number formatting (`{0:0.###}`, `{0:f}`, `AsUnixTime`) is floating-point
.NET code, and the `Support` namespace is not part of this model. The
renderer therefore takes these as a `NumberFormat` parameter of three
functions. Some lemmas assume only that those functions never output a
`'|'`. Rendering an `int` (`{1}` of the counter adjustment) is modelled
exactly, and it has its own read-back lemma.

Where the code and its description disagree, the model follows the code:

- An oversized line is yielded **before** the partly filled accumulator is
  flushed, not after it. So it overtakes the lines read before it
  (`OversizedOvertakesPending`).
- A line of exactly `packetSize` bytes counts as oversized: the test is
  `>=`, not `>`.
- The unit tests expect `"\0"` to be an invalid key that sanitizes to
  `"_"`. In the code, NUL is not in the pattern's excluded class, so
  `"\0"` is valid and is returned unchanged.
- `Sample` rejects only `frequency > 1`. Its message says "must be < 1",
  but a frequency of exactly 1 is accepted, and so is NaN.

## Model

| member | source | states |
|---|---|---|
| `PacketBuilder.ToMaximumBytePackets` | src/NanoTube/Net/PacketBuilder.cs:30-59 | Throws ArgumentOutOfRange("capacity") exactly when `packetSize < 0` (the `List<byte>` capacity). Otherwise the yielded packets equal `Packets(metrics, packetSize)`: the loop keeps its accumulator equal to the framed pending lines. |
| `PacketBuilder.ToMaximumBytePacketsDefault` | src/NanoTube/Net/PacketBuilder.cs:19-22 | The one-argument overload gives exactly the packets of the sized overload at 512 bytes. |
| `PacketBuilder.RunInvariant` | src/NanoTube/Net/PacketBuilder.cs:34-53 | After any prefix of the input: every yielded packet is well formed; the accumulator fits in `packetSize` and holds only short lines; the long lines were yielded alone, in input order; the short lines are in accumulator packets or the accumulator, in input order. |
| `PacketBuilder.PlanShape` | src/NanoTube/Net/PacketBuilder.cs:34-58 | In the final packet list: every packet is either one line of at least `packetSize` bytes, or a non-empty run of shorter lines whose framed size is at most `packetSize`. The lone lines are exactly the long input lines, in order. The run lines are exactly the short input lines, in order. |
| `PacketBuilder.PacketBounds` | src/NanoTube/Net/PacketBuilder.cs:37-58 | No packet exceeds `packetSize` unless it is an input line sent whole. For `packetSize >= 1`, no packet is empty. |
| `PacketBuilder.LinesConserved` | src/NanoTube/Net/PacketBuilder.cs:34-58 | Every input line is sent in exactly one packet. The lone lines plus the accumulated lines equal the input as a multiset. |
| `PacketBuilder.PacketsRoundTrip` | src/NanoTube/Net/PacketBuilder.cs:34-58 | When every line is shorter than `packetSize`, the packets concatenated equal the input lines, each followed by `'\n'`. |
| `PacketBuilder.NewlineSplitRoundTrip` | src/NanoTube/Net/PacketBuilder.cs:37-51 | When every line is short and free of newlines, splitting the concatenated packets at newlines gives back the input lines. |
| `PacketBuilder.SingleLine` | src/NanoTube/Net/PacketBuilder.cs:37-45 | A single line of at least `packetSize` bytes (including exactly `packetSize`) is yielded as its raw bytes, with no terminator. A shorter line is yielded with its terminator. |
| `PacketBuilder.EmptyInput` | src/NanoTube/Net/PacketBuilder.cs:55-58 | Empty input yields no packets. |
| `PacketBuilder.TwoLinesShareAPacket` | src/NanoTube/Net/PacketBuilder.cs:37-41 | Two lines whose framed total fits go into one packet, `a\nb\n`. |
| `PacketBuilder.TwoLinesOnePacket` | src/NanoTube/Net/PacketBuilder.cs:34-58 | `"a:1\|c"` and `"b:320\|ms"` at 512 bytes give the single packet `"a:1\|c\nb:320\|ms\n"`. |
| `PacketBuilder.OversizedOvertakesPending` | src/NanoTube/Net/PacketBuilder.cs:42-57 | With 4-byte packets, `"a"` then `"bcdef"` come out as `"bcdef"` then `"a\n"`: the oversized line is yielded while the accumulator is still pending. |
| `Linq.Chunk` | src/NanoTube/Linq/LinqExtensions.cs:19-35 | Throws ArgumentOutOfRange("capacity") exactly when `batchSize < 0`. Otherwise the yielded batches equal `Batches(list, batchSize)`. |
| `Linq.FlattenBatches` | src/NanoTube/Linq/LinqExtensions.cs:21-34 | Concatenating the batches gives back the input, in order. |
| `Linq.BatchSizes` | src/NanoTube/Linq/LinqExtensions.cs:23-34 | For `batchSize >= 1`: no batch is empty; all but the last hold exactly `batchSize` items; the last holds at most `batchSize`; there are ceil(n / batchSize) batches; empty input gives none. |
| `Linq.ZeroBatchSize` | src/NanoTube/Linq/LinqExtensions.cs:25-34 | With `batchSize = 0` the count never equals the batch size after an `Add`, so non-empty input comes out as one batch. |
| `KeyHelper.TrailingNewlineAcceptedAsWritten` | src/NanoTube/Core/KeyHelper.cs:17-24 | As written, `"ab\n"` passes `IsValidKey`, because .NET's `$` also matches before a final newline. The intended rule `IsValidKeyIntended` rejects it. |
| `KeyHelper.ValidKeyNoDelimiters` | src/NanoTube/Core/KeyHelper.cs:17-24 | A key the code accepts holds none of `! ; : / \ # % $ ^ *`. Its only possible whitespace is one final `'\n'`. |
| `KeyHelper.AsWrittenVersusIntended` | src/NanoTube/Core/KeyHelper.cs:17-24 | The as-written check and the intended check differ exactly on keys made of allowed characters followed by one final `'\n'`. |
| `KeyHelper.ValidKeyCharacters` | src/NanoTube/Core/KeyHelper.cs:17-24 | Intended rule (the corrected half of the finding): a non-null key is valid iff it contains none of `! ; : / \ # % $ ^ *` and no whitespace. So a valid key holds no `'\n'`, `'\r'` or `':'`. |
| `KeyHelper.NullAndEmptyAreValid` | src/NanoTube/Core/KeyHelper.cs:24 | Null and empty keys are valid under both the code's check and the intended rule. |
| `KeyHelper.ValidKeyExamples` | tests/NanoTube.Tests/Core/KeyHelperTests.cs:11-21 | `(foo)`, `goodKey` and `multi.level` are valid, and so is `"\0"`. |
| `KeyHelper.InvalidKeyExamples` | tests/NanoTube.Tests/Core/KeyHelperTests.cs:23-40 | Each of the one-character keys ` ! # $ / \ ; : % ^ *` fails the code's check. |
| `KeyHelper.Sanitize` | src/NanoTube/Core/KeyHelper.cs:31-63 | Returns `Sanitized(key)`, whether the pool handed out a used builder or none. |
| `KeyHelper.SanitizedShape` | src/NanoTube/Core/KeyHelper.cs:33-52 | `Sanitize` keeps the length and returns unchanged any key the code's check accepts, `"\0\n"` included. In any other key, each character of `"! \0\t;:/\\#%$^*"` becomes `'_'` and every other character stays in place. |
| `KeyHelper.SanitizeIdempotent` | src/NanoTube/Core/KeyHelper.cs:33-52 | Sanitizing twice gives the same key as sanitizing once. |
| `KeyHelper.SanitizedHasNoDelimiters` | src/NanoTube/Core/KeyHelper.cs:14-52 | A sanitized key holds none of `! ; : / \ # % $ ^ *`. Any whitespace left in it is whitespace that is not a bad character. |
| `KeyHelper.SanitizedIsValid` | src/NanoTube/Core/KeyHelper.cs:14-52 | When a key's only whitespace is space or tab, its sanitized form is valid even under the intended rule. |
| `KeyHelper.SanitizeKeepsTrailingNewlineKey` | src/NanoTube/Core/KeyHelper.cs:34 | The code's check passes `"\0\n"`, so `Sanitize` returns it unchanged, NUL and newline included. |
| `KeyHelper.SanitizeMayLeaveKeyUnchanged` | src/NanoTube/Core/KeyHelper.cs:34-51 | `Sanitize` does not guarantee a valid key. `"a\nb"` comes back unchanged and invalid. `"\0"` comes back unchanged. |
| `KeyHelper.SanitizeKeepsDottedKey` | tests/NanoTube.Tests/Core/KeyHelperTests.cs:44 | `"my.key"` sanitizes to itself. |
| `KeyHelper.SanitizeReplacesBang` | tests/NanoTube.Tests/Core/KeyHelperTests.cs:49 | `"ju!nk"` sanitizes to `"ju_nk"`. |
| `KeyHelper.SanitizeReplacesControls` | tests/NanoTube.Tests/Core/KeyHelperTests.cs:47 | `"\0\t "` sanitizes to `"___"`. |
| `MetricExtensions.NatToString` | src/NanoTube/Core/MetricExtensions.cs:94 | The decimal rendering of a natural number is non-empty and made only of digits. |
| `MetricExtensions.NatRoundTrip` | src/NanoTube/Core/MetricExtensions.cs:94 | Reading back the digits of a rendered natural number gives the number. |
| `MetricExtensions.IntRoundTrip` | src/NanoTube/Core/MetricExtensions.cs:94 | A rendered negative adjustment is `'-'` followed by the digits of its magnitude. A non-negative one is its digits. |
| `MetricExtensions.ToString` | src/NanoTube/Core/MetricExtensions.cs:40-59 | A null metric gives ArgumentNull("metric"). If the metric is present, an invalid key gives ArgumentException("key"). Otherwise it succeeds: a null or empty key gives the rendered line alone, any other key gives `key + "." + line`. |
| `MetricExtensions.ToStrings` | src/NanoTube/Core/MetricExtensions.cs:20-29 | Null metrics give ArgumentNull("metrics"). An invalid key gives ArgumentException("key"). Otherwise it succeeds iff no element is null, with ArgumentNull("metric") when one is. On success the output has the input's length, and line i is `ToString` of metric i. |
| `MetricExtensions.MapToString` | src/NanoTube/Core/MetricExtensions.cs:25-28 | Maps `ToString` over the metrics in order. It fails exactly when some metric is null. |
| `MetricExtensions.RenderRoundTrip` | src/NanoTube/Core/MetricExtensions.cs:45-56 | In either format, parsing a rendered line gives back the key and the fields `Expected` lists for that variant and format, when the key has no `':'`. |
| `MetricExtensions.StatsDRoundTrip` | src/NanoTube/Core/MetricExtensions.cs:77-99 | StatsD lines parse back as `key:adj\|c`, `key:<num>\|ms` (Timing, and KeyValue with its timestamp dropped) and `key:<num>\|c\|@<freq>`. |
| `MetricExtensions.StatSiteRoundTrip` | src/NanoTube/Core/MetricExtensions.cs:116-141 | Statsite lines parse back as `key:adj\|c`, `key:<num>\|ms`, `key:<num>\|c\|@<freq>`, and `key:<num>\|kv` with `\|@<unix>` exactly when a timestamp is present. |
| `MetricExtensions.CounterLine` | src/NanoTube/Core/MetricExtensions.cs:91-95 | A Counter renders as `key:adj\|c`, and the same in both formats. |
| `MetricExtensions.TimingLine` | src/NanoTube/Core/MetricExtensions.cs:86-90 | A Timing renders as `key:<num>\|ms`, and the same in both formats. |
| `MetricExtensions.SampleLine` | src/NanoTube/Core/MetricExtensions.cs:97-98 | A Sample renders as `key:<num>\|c\|@<freq>`, and the same in both formats. |
| `MetricExtensions.KeyValueLine` | src/NanoTube/Core/MetricExtensions.cs:119-127 | A Statsite KeyValue renders as `key:<num>\|kv\|@<unix>` with a timestamp and `key:<num>\|kv` without one. |
| `MetricExtensions.StatSiteKindIdentifiesVariant` | src/NanoTube/Core/MetricExtensions.cs:116-141 | In Statsite, the parsed kind and flag identify the variant: `c` without a flag is a Counter, `c` with a flag a Sample, `ms` a Timing, `kv` a KeyValue. |
| `MetricExtensions.StatsDKeyValueIsTiming` | src/NanoTube/Core/MetricExtensions.cs:80-90 | In StatsD, a KeyValue renders exactly like a Timing with the same key and value, whatever its timestamp. |
| `MetricExtensions.FormatsAgree` | src/NanoTube/Core/MetricExtensions.cs:86-98 | Counters, timings and samples render the same line in both formats. |
| `MetricExtensions.PrefixedRoundTrip` | src/NanoTube/Core/MetricExtensions.cs:58 | With a non-empty prefix the code's check accepts (`"ab\n"` included), `ToString` succeeds and the parsed name is `prefix + "." + key`. The other fields are unchanged. |
| `MetricExtensions.NewlinePrefixAccepted` | src/NanoTube/Core/MetricExtensions.cs:43-58 | As written, the prefix `"ab\n"` passes the check, and the line becomes `"ab\n." + line`, with a newline at index 2. |
| `MetricExtensions.IntendedPrefixHasNoNewline` | src/NanoTube/Core/MetricExtensions.cs:43-58 | A non-empty prefix valid under the intended rule is accepted. It puts no newline into `prefix + "."` in front of the line. |
| `MetricExtensions.CounterScenario` | src/NanoTube/Core/MetricExtensions.cs:91-95 | Counter `"hits"` adjusted by 5 renders as `"hits:5\|c"` in both formats. |
| `MetricFactory.Counter` | src/NanoTube/Metric.cs:17-22 | A null key gives ArgumentNull("key"). Otherwise it is a Counter with the sanitized key and the adjustment unchanged. |
| `MetricFactory.Increment` | src/NanoTube/Metric.cs:29-34 | Is `Counter(key, 1)`, the null-key error included. |
| `MetricFactory.Decrement` | src/NanoTube/Metric.cs:41-46 | Is `Counter(key, -1)`, the null-key error included. |
| `MetricFactory.Sample` | src/NanoTube/Metric.cs:57-63 | A null key gives ArgumentNull("key"), checked first. Then a frequency greater than 1 gives ArgumentOutOfRange("frequency"). Otherwise it is a Sample with the sanitized key, the int value as a double, and the frequency unchanged. |
| `MetricFactory.Timing` | src/NanoTube/Metric.cs:71-76 | A null key gives ArgumentNull("key"). Otherwise it is a Timing with the sanitized key and the duration unchanged. |
| `MetricFactory.KeyValue` | src/NanoTube/Metric.cs:85-90 | A null key gives ArgumentNull("key"). Otherwise it is a KeyValue with the sanitized key, the value unchanged, and always a timestamp. |
| `MetricFactory.SampleFrequencyEdges` | src/NanoTube/Metric.cs:60 | A frequency of exactly 1, NaN or negative infinity is accepted. 1.5 and positive infinity are refused. |
| `MetricFactory.FactoryKeys` | src/NanoTube/Metric.cs:17-90 | A factory-made key is a fixed point of `Sanitize` and holds no `':'`. The metric's wire line, in either format, parses back to that sanitized key. |

## Left out

- Laziness. `IEnumerable` results are finite sequences here. Streams are not modelled, and neither are infinite ones. So is the fact that an exception is raised only when enumeration reaches it, after earlier items were already yielded. `ToStrings` gives its error for the whole call.
- Null inputs where the code does not check: a null `metrics` sequence for `ToMaximumBytePackets` or `Chunk`, and a null string among the lines. These raise .NET exceptions that the code does not handle. Lines are non-null byte sequences.
- UTF-8 encoding of non-ASCII text. Lines enter the packer already encoded; `EncodeAscii` covers only the ASCII case.
- Integer overflow of `packet.Count + 1 + bytes.Length`. It needs a line of about 2^31 bytes, and `int32` is not applied to these lengths.
- Characters are Unicode scalar values. .NET strings are UTF-16 code units, so a lone surrogate cannot be represented.
- The builder pool itself: its capacity, the `Push` in the `finally` block, and thread safety. `SimpleObjectPool` is not part of this model. `Sanitize` takes the popped builder, or null, as a parameter.
- Number formatting (`0.###`, `f`, `AsUnixTime`), which is floating-point .NET code. It is the `NumberFormat` parameter.
- `MetricFormat` values outside the two named members. The `default:` label sends them to StatsD; the two-constructor datatype cannot hold them.
- The value structs' `Equals` and `GetHashCode`; Dafny datatype equality is structural. In this source snapshot, `Timing` and `KeyValue` do not implement `ITiming`/`IKeyValue`, and `KeyValue`'s property is `TimeStamp` while the interface has `Timestamp`. The model uses the evidently intended four-way union.
- UdpMessenger (sockets, DNS, the event-args pool, exception swallowing), MetricClient (static pools, stopwatch timing) and configuration binding. These are network, concurrency and I/O code around the modelled logic. `StreamMetrics` sends `Chunk` applied to the packets of `ToMaximumBytePacketsDefault`; that composition is not modelled.

## Findings

| source | as written | input that shows it | evidently intended | confidence | as-written member | corrected member |
|---|---|---|---|---|---|---|
| src/NanoTube/Core/KeyHelper.cs:17 | `^[^!\s;:/\\#%\$\^\*]+$` without `RegexOptions.Multiline`. .NET's `$` also matches just before a final `'\n'`, so `IsValidKey` accepts a key that ends in a newline. | `"ab\n"`: valid as written. Used as a prefix it yields `"ab\n.<line>"`, which breaks the newline framing. | A key is valid only if every character is allowed, i.e. the pattern is anchored at the true end of the string (`\z`). | high (follows documented .NET regex semantics; not executed) | `KeyHelper.IsValidKey`, shown by `KeyHelper.TrailingNewlineAcceptedAsWritten` and, downstream, `MetricExtensions.NewlinePrefixAccepted` | `KeyHelper.IsValidKeyIntended`, proved by `KeyHelper.ValidKeyCharacters` (a valid key holds no newline) and `MetricExtensions.IntendedPrefixHasNoNewline` |

`Sanitize`, the metric factories, `ToString` and `ToStrings` all follow the code's check `IsValidKey`. They accept `"ab\n"` and keep `"\0\n"` unchanged, as the code does. The intended rule is proved beside them rather than substituted for them.
