# Locality UUID and extension library, modelled in Dafny

This project models two things.

The first is the **locality UUID** (`LocalityUUID/UUID.cs`). It is a 16-byte identifier whose generated content has a fixed layout:
- bytes 0-3 hold a 32-bit counter. In variable mode its nibbles are written least significant first; in sequential mode it is big-endian;
- bytes 4-5 hold the process id, big-endian;
- byte 6 holds the version nibble `b` over a nibble of the MAC address, and bytes 7-9 hold MAC bytes 3-5;
- bytes 10-15 hold the low 48 bits of the tick clock.

The identifier has a textual form: the 8-4-4-4-12 hex form of section 3 of RFC 4122. It is printed in lower case and parsed case-insensitively after trimming. The identifier also has two 64-bit "halves" views, version-gated extractors that return sentinels, and a generator state: a sequential/variable mode flag and a 32-bit counter.

The second is a set of small pieces of the **SharpExtensions** library:
- the capped FIFO queue;
- string slicing, joining, case and URL-cleaning helpers;
- sequence filters and membership tests;
- query-string manipulation and the camel-case parameter formatter;
- the byte-unit constants;
- exception-chain flattening.

Modules, one per source file, plus two shared ones:

| module | file | models |
|---|---|---|
| `Wrappers` | wrappers.dfy | `Option`, `Result`, `Outcome`; null is `None`, a thrown exception is `Failure` |
| `Framework` | framework.dfy | the .NET primitives the library calls: whitespace, `Trim`, `Split`, `string.Join`, `Substring`, `Replace` of one character, ASCII case, `List<T>` with `Add`/`Remove` |
| `UuidCodec` | uuid_codec.dfy | the value side of `UUID.cs`: hex digits, validator, text form, halves, layout, extractors |
| `UuidGenerator` | uuid_generator.dfy | the stateful side of `UUID.cs`: the generator's mode and counter, the generating constructor's array fill, the byte-array constructor, `Equals` |
| `CappedQueues` | capped_queue.dfy | `CappedQueue<T>` |
| `StringExtensions` | string_extensions.dfy | `Left`, `Right`, `Mid`, `ValidatedJoin`, `IsLower`, `IsUpper`, `CleanForUrl`, `ContainsAny`, `ContainsAll` |
| `LinqExtensions` | linq_extensions.dfy | `WhereNotNull*`, `SelectMany`, `AddRange`, `ContainsAny`, `ContainsAll`, `ContainsOnly` |
| `UriExtensions` | uri_extensions.dfy | query parsing and serialisation, `With`, both `Remove` overloads, `FormatUriParameter` |
| `Constants` | constants.dfy | `KB`..`PB`, `KiB`..`PiB` |
| `ExceptionExtensions` | exception_extensions.dfy | `SimpleDescription` |

How the source's forms are carried over:
- Code that changes things in place stays imperative:
  - the generator's static fields are a `Generator` class;
  - the generating constructor fills a fresh `array<bv8>` index by index;
  - `Equals` and the byte copy are loops;
  - `CappedQueue<T>` is a class over a `seq`;
  - `AddRange`, the `Remove` do-while loops, the `FormatUriParameter` builder loop and the `SimpleDescription` walk are methods with loops.
- Each method is proved against a function that specifies it, and the properties are proved about those functions.
- Integer widths are explicit: `bv8`, `bv32` and `bv64` with wrap-around, and a 64-bit `Int64` newtype for the `long` constants.

Where the library's description and its code disagree, the model follows the code:
- `Mid(s, start, end)` with `end == s.Length` passes the three index checks. The following `Substring(start, end - start + 1)` then throws `ArgumentOutOfRangeException`. So `Mid` succeeds only for `end < s.Length`.
- `GetProcessId` does not mask the process id when writing it, so a generated identifier reports its low 16 bits. That is the whole id, because `ProcessId()` reduces it modulo 65536.
- The counter's `addAndGet` is not part of this model. Whether it hands back the old or the new count, the layout functions take the count as a parameter, so every layout property holds either way. The generator uses the new count.

## Model

| member | source | states |
|---|---|---|
| UuidCodec.ValidHex | LocalityUUID/UUID.cs:293-298 | `validHex`: a character is valid exactly when it is in 0-9, a-f or A-F |
| UuidCodec.IntValue | LocalityUUID/UUID.cs:356-367 | a character has a value exactly when it is a hex digit (0-9, a-f, A-F); the value is below 16; otherwise the source throws (`None`) |
| UuidCodec.MapToByte | LocalityUUID/UUID.cs:373-378 | defined exactly for two hex digits; the high nibble of the byte is the first digit's value, the low nibble the second's |
| UuidCodec.HexDigit | LocalityUUID/UUID.cs:59-63 | every entry of the `Hex` table is a lower-case hex digit whose value is its index |
| UuidCodec.High | LocalityUUID/UUID.cs:399-434 | the printed high digit of a byte is lower-case hex and reads back as the byte's high nibble |
| UuidCodec.Low | LocalityUUID/UUID.cs:399-434 | the printed low digit of a byte is lower-case hex and reads back as the byte's low nibble |
| UuidCodec.HexOfIntValue | LocalityUUID/UUID.cs:356-367 | looking up a digit's value in the `Hex` table gives the digit in lower case |
| UuidCodec.LowerKeepsValue | LocalityUUID/UUID.cs:356-367 | lower-casing a hex digit gives a digit or a-f with the same value |
| UuidCodec.ValueInjective | LocalityUUID/UUID.cs:356-367 | two lower-case hex digits with the same value are the same digit |
| UuidCodec.ByteRoundTrip | LocalityUUID/UUID.cs:373-378 | printing a byte as two digits and mapping them back gives the byte |
| UuidCodec.DigitsRoundTrip | LocalityUUID/UUID.cs:373-378 | mapping two hex digits to a byte and printing it gives the two digits lower-cased |
| UuidCodec.VersionDecValue | LocalityUUID/UUID.cs:53-55 | `VersionDec = MapToByte('b', '0')` is 0xB0 |
| UuidCodec.IsValidUuid | LocalityUUID/UUID.cs:246-286 | `isValidUUID(char[])`: 36 characters, a hyphen at 8, 13, 18 and 23, and a valid hex digit at each of the other 32 positions, checked one by one as the source does |
| UuidCodec.IsValidUuidString | LocalityUUID/UUID.cs:232-235 | `isValidUUID(String)`: false for null, otherwise the character check |
| UuidCodec.ValidIffGrammar | LocalityUUID/UUID.cs:246-286 | the unrolled validator accepts exactly the 36-character strings with `-` at 8, 13, 18, 23 and a hex digit everywhere else |
| UuidCodec.ToText | LocalityUUID/UUID.cs:394-437 | the printed form is 36 characters long |
| UuidCodec.ToTextIsValid | LocalityUUID/UUID.cs:394-437 | the printed form passes `isValidUUID` |
| UuidCodec.ToTextIsLowerCase | LocalityUUID/UUID.cs:394-437 | the printed form has no upper-case letters |
| UuidCodec.ParseContent | LocalityUUID/UUID.cs:144-171 | the string constructor's decoding: byte `k` is `MapToByte` of the two digits at its text position, hyphens skipped |
| UuidCodec.FromText | LocalityUUID/UUID.cs:144-171 | null is refused; otherwise parsing succeeds exactly when the trimmed text is valid, and a failure names the trimmed text |
| UuidCodec.TrimOfValid | LocalityUUID/UUID.cs:149-153 | trimming leaves a valid text form unchanged |
| UuidCodec.DigitPositionOf | LocalityUUID/UUID.cs:155-170 | the two digits of content byte k are hex positions, at the indices the string constructor reads |
| UuidCodec.PositionOfDigit | LocalityUUID/UUID.cs:399-434 | every non-hyphen text position is the high or the low digit of one content byte |
| UuidCodec.ParsePrinted | LocalityUUID/UUID.cs:155-171 | decoding the digits of the printed form gives back the content byte for byte |
| UuidCodec.FromValidText | LocalityUUID/UUID.cs:144-171 | a valid text is decoded as it stands |
| UuidCodec.DecodeTrimmed | LocalityUUID/UUID.cs:149-171 | padded text whose trimmed form is valid decodes to the bytes the trimmed form spells |
| UuidCodec.TextRoundTrip | LocalityUUID/UUID.cs:144-171 | parsing `ToString()` yields the identifier with byte-identical content |
| UuidCodec.PairAt | LocalityUUID/UUID.cs:373-378 | printing the byte decoded from two digits gives those digits lower-cased |
| UuidCodec.PrintParsed | LocalityUUID/UUID.cs:394-437 | printing the bytes a grammatical text spells gives that text lower-cased |
| UuidCodec.PrintParsedAt | LocalityUUID/UUID.cs:394-437 | each printed position is the lower-cased character of the parsed text at that position |
| UuidCodec.CanonicalText | LocalityUUID/UUID.cs:144-171 | for text whose trimmed form is valid, printing the parsed identifier gives the trimmed text with A-F lowered |
| UuidCodec.UpperDigits | LocalityUUID/UUID.cs:293-298 | upper-casing valid text keeps it valid and keeps the bytes it spells |
| UuidCodec.UpperKeepsValue | LocalityUUID/UUID.cs:356-367 | upper-casing a hex digit keeps it a hex digit with the same value |
| UuidCodec.UpperGrammar | LocalityUUID/UUID.cs:246-286 | upper-casing grammatical text keeps it grammatical and keeps each digit's value |
| UuidCodec.SameDigitsSameContent | LocalityUUID/UUID.cs:144-171 | two texts whose digits have equal values decode to the same bytes |
| UuidCodec.SameByte | LocalityUUID/UUID.cs:373-378 | digit pairs with equal values decode to the same byte |
| UuidCodec.CaseInsensitive | LocalityUUID/UUID.cs:144-171 | upper-casing valid text does not change what it parses to |
| UuidCodec.BigEndian64 | LocalityUUID/UUID.cs:207-225 | a 64-bit value splits into eight bytes |
| UuidCodec.BigEndian64Inverse | LocalityUUID/UUID.cs:443-474 | re-assembling the eight big-endian bytes of x gives x |
| UuidCodec.FromBigEndian64Inverse | LocalityUUID/UUID.cs:207-225 | splitting a value assembled from eight bytes gives those bytes back |
| UuidCodec.ByteLanes | LocalityUUID/UUID.cs:443-456 | each byte placed in its lane of a 64-bit value is read back from that lane |
| UuidCodec.LaneValues | LocalityUUID/UUID.cs:443-456 | in a value built by shifting each byte to its place and or-ing them, the low eight bits of each lane are that byte |
| UuidCodec.Assembled | LocalityUUID/UUID.cs:443-456 | reading eight bytes big-endian is the shifts and ors of the source |
| UuidCodec.Split64 | LocalityUUID/UUID.cs:490-548 | a value whose lanes hold the eight bytes splits back into those bytes, most significant first |
| UuidCodec.MostSignificantBits | LocalityUUID/UUID.cs:443-456 | `GetMostSignificantBits`: bytes 0-7 shifted together, byte 0 highest |
| UuidCodec.LeastSignificantBits | LocalityUUID/UUID.cs:461-474 | `GetLeastSignificantBits`: bytes 8-15 shifted together, byte 8 highest |
| UuidCodec.FromHalves | LocalityUUID/UUID.cs:195-225 | `UUID(long, long)` through `ConstructFromLongs`: byte `i` of each half is the half shifted right by `56 - 8i`, truncated to a byte |
| UuidCodec.HalvesRoundTrip | LocalityUUID/UUID.cs:195-225 | the halves of `UUID(hi, lo)` are exactly `hi` and `lo` as 64-bit patterns |
| UuidCodec.FromOwnHalves | LocalityUUID/UUID.cs:480-483 | `toNetUUID` reproduces the identifier's content byte for byte |
| UuidCodec.FromUuid | LocalityUUID/UUID.cs:180-188 | a null identifier is refused; otherwise the copy has the same content |
| UuidCodec.GetVersion | LocalityUUID/UUID.cs:490-493 | `GetVersion`: the `Hex` table entry of the high nibble of byte 6 |
| UuidCodec.GetProcessId | LocalityUUID/UUID.cs:500-506 | `GetProcessId`: -1 unless the version is 'b', otherwise bytes 4-5 shifted together |
| UuidCodec.GetTimestamp | LocalityUUID/UUID.cs:513-526 | `GetTimestamp`: null unless the version is 'b', otherwise bytes 10-15 shifted together as ticks |
| UuidCodec.GetMacFragment | LocalityUUID/UUID.cs:533-548 | `GetMacFragment`: null unless the version is 'b', otherwise two zero bytes, the low nibble of byte 6 and bytes 7-9 |
| UuidCodec.VersionGating | LocalityUUID/UUID.cs:490-548 | the version is 'b' exactly when the high nibble of byte 6 is 0xB; otherwise the extractors give -1 and null; with version 'b' the pid is in 0-65535 and the timestamp and fragment are present |
| UuidCodec.VersionedFields | LocalityUUID/UUID.cs:500-548 | with version 'b', the pid is `content[4] * 256 + content[5]`; the timestamp is below 2^48 and its six big-endian bytes are bytes 10-15; the fragment is `[0, 0, content[6] & 0xF, content[7], content[8], content[9]]` |
| UuidCodec.VersionedPid | LocalityUUID/UUID.cs:500-506 | with version 'b', `GetProcessId` is `content[4] * 256 + content[5]` |
| UuidCodec.PidRead | LocalityUUID/UUID.cs:500-506 | with version 'b', `GetProcessId` is bytes 4-5 shifted together |
| UuidCodec.PairValue | LocalityUUID/UUID.cs:505 | two bytes shifted together read, as a number, as the high byte times 256 plus the low byte |
| UuidCodec.VersionedTime | LocalityUUID/UUID.cs:513-526 | with version 'b', the timestamp is present, below 2^48, and its six big-endian bytes are bytes 10-15 |
| UuidCodec.TimeLanes | LocalityUUID/UUID.cs:518-524 | six bytes shifted together are below 2^48 and split back into those six bytes |
| UuidCodec.Layout | LocalityUUID/UUID.cs:73-119 | the generating constructor's content: counter bytes 0-3 in the current mode's order, pid bytes 4-5, version and MAC bytes 6-9, time bytes 10-15 |
| UuidCodec.GeneratedVersion | LocalityUUID/UUID.cs:104-106 | a generated identifier reports version 'b' |
| UuidCodec.GeneratedProcessId | LocalityUUID/UUID.cs:100-102 | a generated identifier reports the low 16 bits of the process id, which is the id itself below 65536 |
| UuidCodec.PidLanes | LocalityUUID/UUID.cs:500-506 | the two process-id bytes re-assembled give the low 16 bits of the id |
| UuidCodec.GeneratedTimestamp | LocalityUUID/UUID.cs:113-118 | a generated identifier reports the tick count modulo 2^48 |
| UuidCodec.TimeBytesInverse | LocalityUUID/UUID.cs:513-526 | re-assembling the six time bytes gives the low 48 bits of the tick count |
| UuidCodec.GeneratedMacFragment | LocalityUUID/UUID.cs:104-111 | a generated identifier reports the MAC fragment `[0, 0, Mac[2] & 0xF, Mac[3], Mac[4], Mac[5]]` |
| UuidCodec.VariableNibbleOrder | LocalityUUID/UUID.cs:83-87 | in variable mode the eight hex digits of the count are written least significant first |
| UuidCodec.SequentialNibbleOrder | LocalityUUID/UUID.cs:93-97 | in sequential mode the eight hex digits of the count are written most significant first |
| UuidCodec.SequentialHighBytes | LocalityUUID/UUID.cs:94-95 | the first two sequential-mode bytes hold count nibbles 7 to 4 |
| UuidCodec.SequentialLowBytes | LocalityUUID/UUID.cs:96-97 | the last two sequential-mode bytes hold count nibbles 3 to 0 |
| UuidCodec.VariableCounterInjective | LocalityUUID/UUID.cs:83-87 | different counts give different variable-mode counter bytes |
| UuidCodec.VariableCountInverse | LocalityUUID/UUID.cs:83-87 | the count can be read back from its variable-mode bytes |
| UuidCodec.SequentialCounterInjective | LocalityUUID/UUID.cs:93-97 | different counts give different sequential-mode counter bytes |
| UuidCodec.SequentialCountInverse | LocalityUUID/UUID.cs:93-97 | the count can be read back from its sequential-mode bytes |
| UuidCodec.LayoutCountInjective | LocalityUUID/UUID.cs:73-119 | in either mode, different counts give different identifiers, whatever the clock, pid and MAC |
| UuidCodec.SequentialMonotone | LocalityUUID/UUID.cs:91-97 | in sequential mode a larger count (before wrap-around) gives byte-wise larger counter bytes |
| UuidCodec.FirstDifferenceLess | LocalityUUID/UUID.cs:93-97 | four-byte strings whose first differing byte is smaller are lexicographically smaller |
| UuidCodec.LeadingByteOrder | LocalityUUID/UUID.cs:94-95 | the smaller of two counts has the smaller or equal leading counter bytes |
| UuidCodec.TrailingByteOrder | LocalityUUID/UUID.cs:96-97 | with equal leading bytes, the smaller count is smaller from the third byte on |
| UuidGenerator.Step | LocalityUUID/UUID.cs:81-91 | the counter moves by a non-zero step in either mode |
| UuidGenerator.ConsecutiveIdsDiffer | LocalityUUID/UUID.cs:73-119 | two identifiers generated one after the other in the same mode differ, even with the same clock, pid and MAC |
| UuidGenerator.DigestSeed | LocalityUUID/UUID.cs:331-337 | the sequential seed: the first four MD5 digest bytes or-ed together, byte 0 lowest |
| UuidGenerator.DigestSeedBytes | LocalityUUID/UUID.cs:331-337 | the seed is exactly the first four digest bytes, little-endian |
| UuidGenerator.SeedLanes | LocalityUUID/UUID.cs:332-336 | each digest byte lands in its own lane of the seed |
| UuidGenerator.Generator.constructor | LocalityUUID/UUID.cs:57-66 | the initial state is variable mode with the counter at a non-negative random `int` |
| UuidGenerator.Generator.NewUuid | LocalityUUID/UUID.cs:73-119 | the counter advances by the mode's step with 32-bit wrap-around, the mode is unchanged, and the identifier's content is the layout of the new count, clock, pid and MAC |
| UuidGenerator.Generator.UseSequentialIds | LocalityUUID/UUID.cs:311-340 | sets sequential mode; reseeds the counter from the digest only when switching in, and a repeated call leaves the counter alone |
| UuidGenerator.Generator.UseVariableIds | LocalityUUID/UUID.cs:346-349 | clears the mode flag and leaves the counter alone |
| UuidGenerator.FillContent | LocalityUUID/UUID.cs:76-118 | the 16 bytes written index by index are exactly the layout |
| UuidGenerator.WriteVariableCounter | LocalityUUID/UUID.cs:83-87 | writes the variable-mode counter bytes into 0-3 and nothing else |
| UuidGenerator.WriteSequentialCounter | LocalityUUID/UUID.cs:93-97 | writes the sequential-mode counter bytes into 0-3 and nothing else |
| UuidGenerator.WriteProcessId | LocalityUUID/UUID.cs:100-102 | writes the pid bytes into 4-5 and nothing else |
| UuidGenerator.WriteVersionAndMac | LocalityUUID/UUID.cs:104-111 | writes the version/MAC byte and MAC bytes 3-5 into 6-9 and nothing else |
| UuidGenerator.WriteTime | LocalityUUID/UUID.cs:113-118 | writes the low 48 tick bits big-endian into 10-15 and nothing else |
| UuidGenerator.FromBytes | LocalityUUID/UUID.cs:122-137 | null and lengths other than 16 are refused; 16 bytes are copied into fresh content equal to them |
| UuidGenerator.FromBytesAsWritten | LocalityUUID/UUID.cs:128-137 | the byte constructor as written: null and wrong lengths are refused as documented |
| UuidGenerator.FromBytesAsWrittenRejectsAll | LocalityUUID/UUID.cs:136 | as written, every input fails, and 16 bytes fail on the unallocated destination |
| UuidGenerator.Equals | LocalityUUID/UUID.cs:558-575 | for an argument of the same runtime type, the byte loop answers true exactly when the other object is present and has the same content |
| UuidGenerator.ToNetUuidEqualsOriginal | LocalityUUID/UUID.cs:480-483 | `toNetUUID()` `Equals` the original |
| CappedQueues.Pushed | SharpExtensions45/CappedQueue.cs:38-42 | a full queue loses its oldest item before the new one goes to the tail; a queue with room just appends; with capacity zero the dequeue fails |
| CappedQueues.Newest | SharpExtensions45/CappedQueue.cs:40 | the newest n items are a suffix of length min(n, count) |
| CappedQueues.PushedKeepsNewest | SharpExtensions45/CappedQueue.cs:38-42 | for capacity >= 1, enqueueing keeps `Count <= Capacity` and leaves the newest `Capacity` items |
| CappedQueues.ZeroCapacityFails | SharpExtensions45/CappedQueue.cs:40 | with capacity zero, enqueueing dequeues from an empty queue and fails |
| CappedQueues.PushedAll | SharpExtensions45/CappedQueue.cs:38-42 | a run of `Enqueue` calls, one per item in order; the first failure stops the run |
| CappedQueues.PushedAllKeepsNewest | SharpExtensions45/CappedQueue.cs:38-42 | any run of enqueues leaves exactly the newest `Capacity` items of everything enqueued, oldest first |
| CappedQueues.NewestOfNewest | SharpExtensions45/CappedQueue.cs:40 | trimming early to the newest n items does not change the newest n of the whole |
| CappedQueues.TenOfEleven | SharpExtensions45.Tests/CappedQueueTests.cs:13-32 | enqueueing 0 to 10 into a ten-item queue leaves 1 to 10 |
| CappedQueues.CappedQueue.constructor | SharpExtensions45/CappedQueue.cs:28-32 | a new queue is empty with the given capacity |
| CappedQueues.CappedQueue.Create | SharpExtensions45/CappedQueue.cs:28-32 | a negative capacity is refused with `ArgumentOutOfRangeException("capacity")`; otherwise the queue is new, empty and valid |
| CappedQueues.CappedQueue.Count | SharpExtensions45/CappedQueue.cs:22 | the count never exceeds the capacity, and is zero exactly for an empty queue |
| CappedQueues.CappedQueue.Enqueue | SharpExtensions45/CappedQueue.cs:38-42 | the new contents are `Pushed` of the old ones; on failure nothing changes; `Count <= Capacity` is preserved |
| CappedQueues.CappedQueue.Dequeue | SharpExtensions45/CappedQueue.cs:47-50 | returns and removes the oldest item; an empty queue is an error and is left unchanged |
| CappedQueues.CappedQueue.Clear | SharpExtensions45/CappedQueue.cs:55-58 | empties the contents; the capacity is a constant |
| CappedQueues.CappedQueue.Contains | SharpExtensions45/CappedQueue.cs:65-68 | true exactly when the item is among the current contents |
| StringExtensions.Left | SharpExtensions45/StringExtensions.cs:136-142 | null or blank input and `length > Length` are refused with the source's exceptions; otherwise the first `length` characters |
| StringExtensions.Right | SharpExtensions45/StringExtensions.cs:150-156 | the same errors; otherwise the last `length` characters |
| StringExtensions.Mid | SharpExtensions45/StringExtensions.cs:165-173 | each of the source's errors in its order; succeeds exactly for `0 <= start <= end < Length`, with the inclusive slice |
| StringExtensions.LeftRightSplit | SharpExtensions45/StringExtensions.cs:136-156 | `Left(n)` followed by `Right(Length - n)` gives the string back |
| StringExtensions.MidIsSuffixOfLeft | SharpExtensions45/StringExtensions.cs:165-173 | `Mid(start, end)` is `Left(end + 1)` from `start` on, `end - start + 1` characters long |
| StringExtensions.SlicingExamples | SharpExtensions45.Tests/StringExtensionsTests.cs:81-104 | every case of the library's `Left`, `Right` and `Mid` tests, errors and results |
| StringExtensions.ValidatedJoin | SharpExtensions45/StringExtensions.cs:105-108 | only blank or null entries give the empty string |
| StringExtensions.ValidatedJoinSplits | SharpExtensions45/StringExtensions.cs:105-108 | splitting the join at the delimiter gives back exactly the non-null, non-blank entries, in order |
| StringExtensions.IsLower | SharpExtensions45/StringExtensions.cs:115-118 | true exactly when every character is in 'a'..'z'; true for the empty string |
| StringExtensions.IsUpper | SharpExtensions45/StringExtensions.cs:125-128 | true exactly when every character is in 'A'..'Z'; true for the empty string |
| StringExtensions.CaseTests | SharpExtensions45/StringExtensions.cs:115-128 | lower-case strings are unchanged by lowering; only the empty string is both lower and upper case |
| StringExtensions.UrlUnsafe | SharpExtensions45/StringExtensions.cs:89-94 | the union of the five `Enumerable.Range` calls: codes 0-30, 33-47, 58-64, 91-96 and 123-127 |
| StringExtensions.CharRange | SharpExtensions45/StringExtensions.cs:89-93 | `Enumerable.Range(start, count)` as characters: count characters with consecutive codes |
| StringExtensions.InCharRange | SharpExtensions45/StringExtensions.cs:89-93 | a character is in a range exactly when its code lies between its bounds |
| StringExtensions.UrlUnsafeExactly | SharpExtensions45/StringExtensions.cs:89-94 | the removed characters are exactly the codes 0-30, 33-47, 58-64, 91-96 and 123-127 |
| StringExtensions.RemoveEach | SharpExtensions45/StringExtensions.cs:95 | the fold of `Replace` calls keeps exactly the characters not removed |
| StringExtensions.WithoutAfterRemoveChar | SharpExtensions45/StringExtensions.cs:95 | one `Replace` step followed by the rest is the filter by all of them |
| StringExtensions.Without | SharpExtensions45/StringExtensions.cs:95 | the reference definition: the characters of the string not among the removed ones, in their order |
| StringExtensions.RemoveEachIsWithout | SharpExtensions45/StringExtensions.cs:95 | the fold equals an order-keeping filter of the removed characters |
| StringExtensions.WithoutNothing | SharpExtensions45/StringExtensions.cs:95 | filtering by no characters keeps the string |
| StringExtensions.CleanForUrl | SharpExtensions45/StringExtensions.cs:87-97 | the result holds only characters of the input, none unsafe, and starts and ends with non-whitespace |
| StringExtensions.CleanedChars | SharpExtensions45/StringExtensions.cs:95 | every character left after the deletions and the trim was in the input and is not unsafe |
| StringExtensions.CleanForUrlIsTrimmedFilter | SharpExtensions45/StringExtensions.cs:87-97 | the result is the input with the unsafe characters filtered out in order, then trimmed |
| StringExtensions.CleanForUrlKeepsClean | SharpExtensions45/StringExtensions.cs:87-97 | a trimmed string without unsafe characters is unchanged |
| StringExtensions.WithoutSafe | SharpExtensions45/StringExtensions.cs:95 | filtering a string without unsafe characters keeps it |
| StringExtensions.CleanForUrlDropsReserved | SharpExtensions45.Tests/StringExtensionsTests.cs:40-43 | no reserved URL character of the test's list survives, whatever the input |
| StringExtensions.ContainsAny | SharpExtensions45/StringExtensions.cs:181-184 | true exactly when some argument is a substring of the source |
| StringExtensions.ContainsAll | SharpExtensions45/StringExtensions.cs:192-195 | true exactly when every argument is a substring, so true for no arguments |
| StringExtensions.MembershipFacts | SharpExtensions45/StringExtensions.cs:181-195 | the empty argument is in every source; with arguments, all implies any |
| LinqExtensions.Values | SharpExtensions45/LinqExtensions.cs:14-48 | the filter keeps exactly the present values passing the test, and never grows the sequence |
| LinqExtensions.ValuesStep | SharpExtensions45/LinqExtensions.cs:14-48 | the filter of a non-empty sequence is the head, if present and kept, followed by the filter of the rest |
| LinqExtensions.ValuesOfWrapped | SharpExtensions45/LinqExtensions.cs:14-28 | a sequence wrapping, position by position, values that all pass filters back to those values in order |
| LinqExtensions.ValuesConcat | SharpExtensions45/LinqExtensions.cs:14-48 | filtering a concatenation filters each part and keeps the order |
| LinqExtensions.ValuesOfPresent | SharpExtensions45/LinqExtensions.cs:14-28 | present values that all pass come through whole and in order |
| LinqExtensions.WhereNotNull | SharpExtensions45/LinqExtensions.cs:14-28 | exactly the non-null elements; nothing for a null source |
| LinqExtensions.WhereNotNullOrEmpty | SharpExtensions45/LinqExtensions.cs:35-38 | exactly the non-null, non-empty elements |
| LinqExtensions.WhereNotNullOrWhitespace | SharpExtensions45/LinqExtensions.cs:45-48 | exactly the non-null elements that are not all whitespace |
| LinqExtensions.WhereNotNullConcat | SharpExtensions45/LinqExtensions.cs:14-28 | `WhereNotNull` keeps the original order: the filter of a concatenation is the filters of the parts, in order |
| LinqExtensions.WhereNotNullOrEmptyConcat | SharpExtensions45/LinqExtensions.cs:35-38 | `WhereNotNullOrEmpty` keeps the original order |
| LinqExtensions.WhereNotNullOrWhitespaceConcat | SharpExtensions45/LinqExtensions.cs:45-48 | `WhereNotNullOrWhitespace` keeps the original order |
| LinqExtensions.WhereNotNullOfPresent | SharpExtensions45/LinqExtensions.cs:14-28 | with no null in the source, every element comes through, in order and with repeats |
| LinqExtensions.WhitespaceFilterIsStricter | SharpExtensions45/LinqExtensions.cs:35-48 | what the whitespace filter keeps the empty filter keeps; `" "` is kept by the second only |
| LinqExtensions.SelectMany | SharpExtensions45/LinqExtensions.cs:56-59 | an element is in the result exactly when it is in one of the inner sequences |
| LinqExtensions.SelectManyConcat | SharpExtensions45/LinqExtensions.cs:56-59 | flattening is the in-order concatenation of the inner sequences |
| LinqExtensions.AddRange | SharpExtensions45/LinqExtensions.cs:78-81 | the list becomes its old elements followed by the range, in order |
| LinqExtensions.ContainsAny | SharpExtensions45/LinqExtensions.cs:90-105 | true exactly when some argument is in the source |
| LinqExtensions.ContainsAll | SharpExtensions45/LinqExtensions.cs:114-129 | true exactly when every argument is in the source, so true for no arguments |
| LinqExtensions.Except | SharpExtensions45/LinqExtensions.cs:145 | exactly the source elements that are not arguments |
| LinqExtensions.ContainsOnly | SharpExtensions45/LinqExtensions.cs:138-163 | false when the lengths differ; otherwise true exactly when every source element is an argument |
| LinqExtensions.AddRangeContainsAll | SharpExtensions45/LinqExtensions.cs:78-81 | after `AddRange` the collection contains the whole range, and not only it when it had elements |
| LinqExtensions.AllImpliesAny | SharpExtensions45/LinqExtensions.cs:90-129 | with at least one argument, containing all implies containing one |
| LinqExtensions.ContainsOnlyIsNotPermutation | SharpExtensions45/LinqExtensions.cs:138-163 | `ContainsOnly` holds for sequences that are not permutations of each other |
| LinqExtensions.ContainsOnlyIsNotSymmetric | SharpExtensions45/LinqExtensions.cs:138-163 | `ContainsOnly` can hold one way and not the other |
| UriExtensions.ParsePair | SharpExtensions45/UriExtensions.cs:193 | a segment parses exactly when it splits into at least two non-empty pieces at `=`; key and value are non-empty, without `=`, made of the segment's characters |
| UriExtensions.ParseSegments | SharpExtensions45/UriExtensions.cs:193 | all segments parse or the query is an error; each pair is its segment's parse |
| UriExtensions.ParseTail | SharpExtensions45/UriExtensions.cs:193 | a parsed head followed by the parse of the rest meets the contract of the whole parse |
| UriExtensions.ParsedWellFormed | SharpExtensions45/UriExtensions.cs:191-194 | parsed keys and values are non-empty and free of `?`, `&` and `=` |
| UriExtensions.ParseItem | SharpExtensions45/UriExtensions.cs:76 | a well-formed `key=value` item parses back to its pair |
| UriExtensions.ParseItems | SharpExtensions45/UriExtensions.cs:76 | the items of well-formed pairs parse back to the pairs |
| UriExtensions.Serialize | SharpExtensions45/UriExtensions.cs:76 | `string.Join("&", query.Select(x => "{0}={1}"...))`: the pairs as `key=value` items joined with `&`, in order |
| UriExtensions.ParseQuery | SharpExtensions45/UriExtensions.cs:191-194 | `GetQueryParameters`: every `?` deleted, split on `&` without empty entries, each segment parsed in order |
| UriExtensions.QueryRoundTrip | SharpExtensions45/UriExtensions.cs:76 | parsing a serialised query gives back its pairs in order |
| UriExtensions.With | SharpExtensions45/UriExtensions.cs:71-78 | a malformed query is an error; otherwise the existing pairs in order, then the new ones, serialised |
| UriExtensions.WithAppends | SharpExtensions45/UriExtensions.cs:71-78 | the query `With` writes parses back to the old pairs followed by the new ones |
| UriExtensions.DropPair | SharpExtensions45/UriExtensions.cs:114-117 | exactly the pairs other than the removed one remain |
| UriExtensions.DropPairs | SharpExtensions45/UriExtensions.cs:109-121 | exactly the pairs that are not among the arguments remain |
| UriExtensions.RemoveFirstKeepsDrop | SharpExtensions45/UriExtensions.cs:116 | one `Remove` call does not change what remains after removing every occurrence |
| UriExtensions.DropAbsent | SharpExtensions45/UriExtensions.cs:116 | removing a pair that is not there changes nothing |
| UriExtensions.DropPairsStep | SharpExtensions45/UriExtensions.cs:114-117 | removing one more argument after the others is removing all of them |
| UriExtensions.RemoveEvery | SharpExtensions45/UriExtensions.cs:116 | the do-while loop removes every occurrence of the pair and keeps the rest in order |
| UriExtensions.RemovePairs | SharpExtensions45/UriExtensions.cs:109-121 | a malformed query is an error; otherwise the pairs not among the arguments, in order, serialised |
| UriExtensions.RemoveEachPair | SharpExtensions45/UriExtensions.cs:113-118 | removing every argument pair in turn leaves the pairs not among the arguments, in order |
| UriExtensions.NoneDropped | SharpExtensions45/UriExtensions.cs:109-121 | removing no pairs keeps the query |
| UriExtensions.RemoveAllPairs | SharpExtensions45.Tests/UriExtensionsTests.cs:51 | removing every pair of the query leaves the empty query |
| UriExtensions.RemovePairsParses | SharpExtensions45/UriExtensions.cs:109-121 | the query `Remove` writes parses back to the kept pairs |
| UriExtensions.FindKey | SharpExtensions45/UriExtensions.cs:136 | finds a pair with the key, or reports that no pair has it |
| UriExtensions.DropKey | SharpExtensions45/UriExtensions.cs:136 | exactly the pairs with another key remain |
| UriExtensions.DropKeys | SharpExtensions45/UriExtensions.cs:129-141 | exactly the pairs whose key is not among the keys remain |
| UriExtensions.RemoveFirstKeepsDropKey | SharpExtensions45/UriExtensions.cs:136 | removing one pair with the key does not change what remains after removing them all |
| UriExtensions.DropAbsentKey | SharpExtensions45/UriExtensions.cs:136 | removing a key no pair has changes nothing |
| UriExtensions.DropKeysStep | SharpExtensions45/UriExtensions.cs:133-137 | removing one more key after the others is removing all of them |
| UriExtensions.NoKeysDropped | SharpExtensions45/UriExtensions.cs:129-141 | removing no keys keeps the query |
| UriExtensions.RemoveFound | SharpExtensions45/UriExtensions.cs:136 | `Remove(Find(...))` removes the first pair with the key and reports it; with none it changes nothing |
| UriExtensions.RemoveEveryKey | SharpExtensions45/UriExtensions.cs:136 | the do-while loop removes every pair with the key and keeps the rest in order |
| UriExtensions.RemoveKeys | SharpExtensions45/UriExtensions.cs:129-141 | a malformed query is an error; otherwise the pairs with other keys, in order, serialised |
| UriExtensions.RemoveKeysParses | SharpExtensions45/UriExtensions.cs:129-141 | the query `Remove(keys)` writes parses back to the kept pairs |
| UriExtensions.RemoveEachKey | SharpExtensions45/UriExtensions.cs:133-138 | removing every argument key in turn leaves the pairs whose keys are not among the arguments, in order |
| UriExtensions.FormatUriParameter | SharpExtensions45/UriExtensions.cs:176-189 | null or blank string and delimiter are refused with `ArgumentNullException`; otherwise the delimiter follows each lower-case letter followed by an upper-case one, and the whole is lowered |
| UriExtensions.DelimitedAt | SharpExtensions45/UriExtensions.cs:183-186 | one loop step appends the character and, at a boundary, the delimiter |
| UriExtensions.DelimitedLength | SharpExtensions45/UriExtensions.cs:183-186 | the builder grows by one delimiter per camel-case boundary |
| UriExtensions.DelimitedWithoutBoundary | SharpExtensions45/UriExtensions.cs:183-186 | without a boundary nothing is inserted |
| UriExtensions.CamelCaseExample | SharpExtensions45/UriExtensions.cs:176-189 | "multiWord" with "_" gives "multi_word" |
| UriExtensions.DelimitedMultiWord | SharpExtensions45/UriExtensions.cs:176-189 | "multiWord" delimited with "_" before its capital gives "multi_Word" |
| UriExtensions.WordHasNoBoundary | SharpExtensions45/UriExtensions.cs:176-189 | "Word" has no lower-to-upper boundary |
| UriExtensions.LowerMultiWord | SharpExtensions45/UriExtensions.cs:176-189 | lower-casing "multi_Word" gives "multi_word" |
| Constants.DecimalUnits | SharpExtensions45/Constants.cs:11-31 | `KB == 1000`; each decimal unit is 1000 times the previous one, so `PB == 1000^5` |
| Constants.BinaryUnits | SharpExtensions45/Constants.cs:36-56 | `KiB == 1024`; each binary unit is 1024 times the previous one, so `PiB == 2^50` |
| Constants.BinaryAtLeastDecimal | SharpExtensions45/Constants.cs:11-56 | each binary unit is at least its decimal counterpart, and `PiB` is 2^63 / 8192, inside a `long` |
| ExceptionExtensions.Depth | SharpExtensions45/ExceptionExtensions.cs:20-24 | the number of exceptions the loop visits: the chain's length through `InnerException` |
| ExceptionExtensions.Messages | SharpExtensions45/ExceptionExtensions.cs:20-24 | one message per exception of the chain |
| ExceptionExtensions.Description | SharpExtensions45/ExceptionExtensions.cs:17-27 | the reference definition: each message followed by a line break, outermost first, the empty string for null |
| ExceptionExtensions.Lines | SharpExtensions45/ExceptionExtensions.cs:22 | a list of messages laid out as text: each followed by a line break, in order |
| ExceptionExtensions.LinesConcat | SharpExtensions45/ExceptionExtensions.cs:22 | laying out two runs of messages is laying out each, in order |
| ExceptionExtensions.DescriptionIsLines | SharpExtensions45/ExceptionExtensions.cs:12-27 | the description is the chain's messages laid out one per line, outermost first |
| ExceptionExtensions.LineOfMessage | SharpExtensions45/ExceptionExtensions.cs:12-27 | message `i` of the chain is line `i` of the description: the lines before it are the messages of the outer exceptions |
| ExceptionExtensions.LinesAt | SharpExtensions45/ExceptionExtensions.cs:22 | the layout of a list of messages, split around its message `i` |
| ExceptionExtensions.LinesFrom | SharpExtensions45/ExceptionExtensions.cs:22 | the layout of a suffix starts with its first message and a line break |
| ExceptionExtensions.SimpleDescription | SharpExtensions45/ExceptionExtensions.cs:17-27 | null gives ""; the loop over inner exceptions terminates and yields each message followed by a line break, outermost first |
| ExceptionExtensions.OneLinePerException | SharpExtensions45/ExceptionExtensions.cs:20-24 | with line-break-free messages, the description has exactly one line per exception of the chain |
| ExceptionExtensions.ThreeLevelExample | SharpExtensions45.Tests/ExceptionExtensionsTests.cs:16-25 | the library's three-level chain gives its three messages, outermost first, one per line |

## Left out

- OS and environment sources: `MacAddress()`, `ProcessId()`, `DateTime.UtcNow`, the `Random` seed of the counter, and the MD5 hash and date formatting in `UseSequentialIds`. They are parameters of the generator's methods.
- Atomicity of `AtomicInteger`: the counter is single-threaded, and the generator's static fields are one `Generator` object.
- `GetBytes`: it returns the internal array, not a copy. With value semantics that aliasing cannot be shown, so it is not modelled.
- `GetHashCode`: it hashes the array reference, not the content.
- The `DateTime` wrapper of `GetTimestamp`: the model returns the raw 48-bit ticks.
- The `string.Join(",", bytes)` text of the byte constructor's error message: the error carries the length instead.
- UuidGenerator.Generator.NewUuid, Layout and the extractors: require a MAC of at least 6 bytes, because the source indexes `Mac[2]` to `Mac[5]` without a check.
- `isValidUUID(char[])` with a null array: it is folded into the string overload as `None`.
- UriExtensions.FormatUriParameter: requires ASCII input. `char.IsLower`, `char.IsUpper` and `ToLower` are modelled for ASCII letters only, because Unicode categories and case mapping are not part of this model.
- Null receivers of `IsLower`, `IsUpper`, `CleanForUrl`, `ContainsAny`, `ContainsAll` and `SelectMany`, a null array in `ValidatedJoin`, and null arguments: the source throws `NullReferenceException` or `ArgumentNullException` from the framework. The model takes these parameters as non-null values.
- UriExtensions.RemoveFound: `List.Find` returns the default pair when nothing matches, and `Remove` of that pair fails. The model returns false directly, which is the same outcome as long as the query holds no default pair; a default pair (null key) cannot come from parsing.
- Query values are strings. The source's `object` values are formatted with `string.Format` when serialised.
- `UriBuilder`/`Uri`: the query string is the model's input and output. The rest of the URI, the leading `?` that `UriBuilder` adds, and escaping are not part of this model.
- `With(string, args)` (`string.Format`), `ToUri`/`FormatForUri` (reflection), `IsNumeric` (`double.TryParse`), the `Split` overloads, `ToHashSet` and the `Join` extension: wrappers over library code that this model does not have.
- `Environment.NewLine` is taken as `"\r\n"`, its value on Windows, which the library targets.
- The async and task helpers, the JSON extensions, `SortedObservableCollection`, the enum and date-time helpers, and the attribute classes are not part of this model.
- CappedQueues.CappedQueue.constructor: requires a non-negative capacity. The refusal of a negative one, which the wrapped `Queue<T>` throws, is modelled by `CappedQueue.Create`.
- StringExtensions.ValidatedJoin: its contract states only the all-blank case. The full behaviour is stated through `ValidatedJoinSplits`, and the `"abc,stuff"` test case is not proved separately.
- `CappedQueue<T>` enumeration (`GetEnumerator`) is not modelled.
- UuidGenerator.Equals: arguments of another runtime type are not modelled. That includes instances of a subclass of `UUID`, which is not sealed, with identical content. The source's `GetType() != o.GetType()` check answers false for all of them; the model's argument is an optional `Uuid` and can only be one of the same type.
- Strings are sequences of Dafny `char`s, which are Unicode scalar values. C# strings are sequences of UTF-16 code units. A character outside the Basic Multilingual Plane is one position in the model but two in the source, and an unpaired surrogate cannot be represented. So the indices and lengths of `Framework.Substring`, `StringExtensions.Left`, `StringExtensions.Right`, `StringExtensions.Mid` and `StringExtensions.CleanForUrl` agree with the source only for text made of Basic Multilingual Plane characters. For example, `"😀a".Left(1)` is a lone high surrogate in the source but `"😀"` in the model.

## Findings

| source | as written | input that shows it | evidently intended | confidence | as-written member | corrected member |
|---|---|---|---|---|---|---|
| LocalityUUID/UUID.cs:128-137 | `Array.Copy(bytes, Content, 16)` copies into `Content`, which this constructor never allocates, so every accepted input throws on the null destination | any 16-byte array | the documented copy of the 16 bytes into fresh content (lines 122-127) | not executed | UuidGenerator.FromBytesAsWrittenRejectsAll | UuidGenerator.FromBytes |
