# Nabu core in Dafny

This project models the shared core of Nabu, a C++ client/server framework:

- **Two binary codecs.**
  - The stream codec (`serialization_base.hpp`, `serialization.hpp`) works on a `buffer_span` through raw, checked and throwing streams. It covers trivial, array, iterable, tuple/aggregate, optional and pair types.
  - The earlier pointer-based codec (`common/serialization.hpp`) writes and reads through a raw `std::byte*`.
- **Type classification** (`serial_tag`, `get_serialization_tag`). It decides how a C++ type is serialized.
- **Message ids and the message parser.** A frame is `begin id separator message end`, and one callback slot exists per valid id.
- **The configuration file reader.** A per-character state machine reads TOML-like lines. A driver stores the entries into a section → key → value map.
- **The block allocator resource.** It keeps a free list threaded through blocks in growing chunks. The block allocator and hybrid allocator sit on top of it.
- **The reactor.** It has callback lists per event id, a FIFO queue of immediate events and a priority queue of delayed events.

## How C++ entities are represented

- A C++ type's serialization shape becomes a `Codec.Schema`.
- An object becomes a `Values.Value`. It is a byte blob for trivially copyable data, a sequence of items in wire order for containers, or a sequence of fields for tuples and aggregates. Containers are modelled as sequence containers that append each decoded element; sets, maps and front-inserting containers are not (see "## Left out").
- Bytes are a `byte` newtype.
- The 16-bit element count is written as two little-endian bytes. This stands for the source's native byte order.
- Objects that the source updates in place are classes with `modifies` clauses: `Streams.Stream`, `MessageParser.Parser`, `Allocators.BlockResource`, `Allocators.BlockAllocator`, `Allocators.HybridAllocator` and `Reactor.Reactor`.
- Loops in the source are `while` loops with invariants, and each is proved against a specification function:
  - the iterable probe;
  - the element and field loops of the legacy codec;
  - `parse_line`'s `while (parser)` loop;
  - the file loop;
  - `add_chunk`'s linking loop;
  - the callback list's `consume` loop;
  - both phases of `update`.
- Pure decisions are functions: the classification, the per-character parse functions, registration and the priority-queue order.

## Model

| member | source | states |
|---|---|---|
| Values.EncodeCount | common/include/serialization_base.hpp:130-131 | the element count always takes the two bytes of a `uint16_t` |
| Values.CountRoundTrip | common/include/serialization_base.hpp:130-136 | reading back a written count gives the count modulo 2^16, so every count up to `max_serialized_count` survives unchanged |
| Values.CountTruncation | common/include/common/serialization.hpp:209 | a count above 65535 is written exactly as its truncation to 16 bits |
| Values.FlattenLength | common/include/serialization_base.hpp:389-392 | n elements of width w occupy n * w bytes |
| Values.Chunks | common/include/serialization_base.hpp:414-435 | reading `count` elements of width w yields exactly `count` blobs of width w |
| Values.ChunksOfFlatten | common/include/serialization_base.hpp:414-435 | cutting the concatenated element bytes back into chunks gives the original elements, whatever follows them |
| Values.Splice | common/include/serialization_base.hpp:18-23 | writing bytes at an offset keeps the buffer length and changes exactly the written range |
| Values.SpliceTwice | common/include/serialization_base.hpp:279-282 | two consecutive writes, each advancing `begin`, equal one write of their concatenation |
| Values.CopyInto | common/include/common/serialization.hpp:186-191 | `memcpy` into the destination leaves it equal to the old contents spliced with the bytes |
| Values.SpliceIntoGap | common/include/common/serialization.hpp:240-251 | writing the elements first and the count into the gap before them afterwards gives the same bytes as writing the count and then the elements |
| Codec.Encode | common/include/serialization_base.hpp:279-282 | the encoding of a value has exactly `serialized_size(val)` bytes |
| Codec.EncodeAll | common/include/serialization_base.hpp:462-468 | the elements of an iterable encode to the sum of their sizes |
| Codec.EncodeFields | common/include/serialization_base.hpp:508-513 | the fields of a tuple encode to the sum of their sizes |
| Codec.Probe | common/include/serialization_base.hpp:263-271 | the probe answers either `invalid_serialized_size` or a size that fits in the span |
| Codec.ProbeArray | common/include/serialization_base.hpp:393-403 | the array probe is invalid or within the span |
| Codec.ProbeIterable | common/include/serialization_base.hpp:447-461 | the iterable probe is invalid or within the span |
| Codec.ProbeOptional | common/include/serialization.hpp:18-33 | the optional probe is invalid or within the span |
| Codec.ProbePair | common/include/serialization.hpp:61-75 | the pair probe is invalid or within the span |
| Codec.ProbeMany | common/include/serialization_base.hpp:447-461 | probing k elements in sequence is invalid or within the span |
| Codec.ProbeFields | common/include/serialization_base.hpp:492-506 | probing the remaining tuple fields is invalid or within the span |
| Codec.Decode | common/include/serialization_base.hpp:303-306 | a successful decode never consumes more than the span holds |
| Codec.DecodeArray | common/include/serialization_base.hpp:414-435 | an array decode consumes at most the span |
| Codec.DecodeIterable | common/include/serialization_base.hpp:469-482 | an iterable decode consumes at most the span |
| Codec.DecodeTuple | common/include/serialization_base.hpp:515-520 | a tuple decode consumes at most the span |
| Codec.DecodeOptional | common/include/serialization.hpp:42-52 | an optional decode consumes at most the span |
| Codec.DecodePair | common/include/serialization.hpp:83-87 | a pair decode consumes at most the span |
| Codec.DecodeMany | common/include/serialization_base.hpp:469-482 | decoding k elements yields exactly k values within the span |
| Codec.DecodeFields | common/include/serialization_base.hpp:515-520 | decoding from field i yields one value per remaining field within the span |
| CodecProofs.RoundTrip | common/include/serialization_base.hpp:273-306 | for every value whose counts fit 16 bits, decoding its encoding followed by any bytes returns the value and its size |
| CodecProofs.RoundTripArray | common/include/serialization_base.hpp:404-435 | array round trip |
| CodecProofs.RoundTripIterable | common/include/serialization_base.hpp:462-482 | iterable round trip, given the elements' round trip |
| CodecProofs.CountedDecode | common/include/serialization_base.hpp:469-482 | a count followed by k decodable elements decodes to the container of those elements |
| CodecProofs.RoundTripOptional | common/include/serialization.hpp:35-52 | optional round trip: the presence flag and then the value |
| CodecProofs.RoundTripPair | common/include/serialization.hpp:77-87 | pair round trip: first, then second |
| CodecProofs.RoundTripAll | common/include/serialization_base.hpp:462-482 | the encoded elements decode back to the same elements and their total size |
| CodecProofs.RoundTripFields | common/include/serialization_base.hpp:508-520 | the encoded fields of a tuple decode back to the same fields and their total size |
| CodecProofs.DecodeFieldsStep | common/include/serialization_base.hpp:508-520 | the field round trip extends by one field at the front |
| CodecProofs.ProbeAgreesWithDecode | common/include/serialization_base.hpp:263-271 | the probe is invalid exactly when decoding fails, and otherwise equals the number of bytes the decode consumes |
| CodecProofs.ProbeManyAgrees | common/include/serialization_base.hpp:447-461 | the element probe agrees with the element decode |
| CodecProofs.ProbeFieldsAgree | common/include/serialization_base.hpp:492-506 | the field probe agrees with the field decode |
| CodecProofs.ProbeOfEncoding | common/include/serialization_base.hpp:263-271 | on a span that starts with an encoding, the probe returns its size |
| CodecProofs.ProbeValidMeansDecodes | common/include/serialization_base.hpp:307-313 | when `try_deserialize`'s probe is valid, the unchecked decode that follows succeeds and consumes that many bytes |
| CodecProofs.ProbeOfTruncatedEncoding | common/include/serialization_base.hpp:263-271 | a span holding only a strict prefix of an encoding is probed as invalid |
| CodecProofs.DecodeReadsOnlyConsumed | common/include/serialization_base.hpp:303-306 | a decode depends only on the bytes it consumes |
| CodecProofs.ArrayReadsOnlyConsumed | common/include/serialization_base.hpp:414-435 | an array decode depends only on the bytes it consumes |
| CodecProofs.IterableReadsOnlyConsumed | common/include/serialization_base.hpp:469-482 | an iterable decode depends only on the bytes it consumes |
| CodecProofs.OptionalReadsOnlyConsumed | common/include/serialization.hpp:42-52 | an optional decode depends only on the bytes it consumes |
| CodecProofs.PairReadsOnlyConsumed | common/include/serialization.hpp:83-87 | a pair decode depends only on the bytes it consumes |
| CodecProofs.DecodeManyReadsOnlyConsumed | common/include/serialization_base.hpp:469-482 | decoding k elements depends only on the bytes consumed |
| CodecProofs.DecodeFieldsReadOnlyConsumed | common/include/serialization_base.hpp:515-520 | decoding the fields depends only on the bytes consumed |
| CodecProofs.DecodeWellFormed | common/include/serialization_base.hpp:303-306 | a decoded value conforms to its type, its counts fit 16 bits, and its size is the number of bytes consumed |
| CodecProofs.DecodeManyWellFormed | common/include/serialization_base.hpp:469-482 | decoded elements conform and their sizes sum to the bytes consumed |
| CodecProofs.DecodeFieldsWellFormed | common/include/serialization_base.hpp:515-520 | decoded fields conform and their sizes sum to the bytes consumed |
| CodecProofs.OptionalSizeAsWrittenIsShort | common/include/serialization.hpp:13-16 | the size formula, read with the grouping it is written with, is one byte short of both the encoding (lines 35-39) and the probe (lines 18-32) for a present optional |
| SerialTag.FirstMatch | common/include/serialization_base.hpp:213-240 | the chosen category is invalid or one of the listed ones, and the type has its traits |
| SerialTag.TagIsFirstMatch | common/include/serialization_base.hpp:153-240 | `serial_tag_of` is invalid for pointers and otherwise the first category, in precedence order, whose traits the type has |
| SerialTag.TagHasItsTraits | common/include/serialization_base.hpp:213-240 | a type's tag has the type's traits, and no earlier category in the precedence has them |
| SerialTag.FirstMatchIsEarliest | common/include/serialization_base.hpp:213-240 | the first match lies at or before any matching category |
| SerialTag.LegacyTagIsFirstMatch | common/include/common/serialization.hpp:116-137 | the legacy tag is the first category, in the order custom, trivial, continuous trivial, iterable, aggregate, whose trait the type has, and no tag exactly when it has none |
| SerialTag.LegacyTagHasItsTraits | common/include/common/serialization.hpp:116-137 | the type has the trait of its legacy tag, and a type with the trait of any category gets that one or an earlier one |
| SerialTag.LegacyFirstMatchIsEarliest | common/include/common/serialization.hpp:116-137 | the first legacy match lies at or before any matching category |
| SerialTag.LegacyTestClassification | common/tests/serialization.cpp:8-111 | `int` and a flat struct are trivial, `std::string` continuous trivial, `std::list<int>` iterable, and a struct with a string an aggregate |
| LegacyCodec.Serialize | common/include/common/serialization.hpp:310-314 | `serialize(val, dst)` writes the encoding at `dst` and returns `serialized_size(val)` |
| LegacyCodec.SerializeContinuous | common/include/common/serialization.hpp:207-215 | continuous trivial: the count and then the element bytes |
| LegacyCodec.SerializeIterable | common/include/common/serialization.hpp:239-251 | iterable: a count placeholder, the elements, and then the count written back |
| LegacyCodec.SerializeElements | common/include/common/serialization.hpp:245-248 | the element loop writes every element in order; its 16-bit counter ends at the count modulo 2^16 |
| LegacyCodec.SerializeAggregate | common/include/common/serialization.hpp:281-288 | aggregate: the fields one after another |
| LegacyCodec.Wrapped | common/include/common/serialization.hpp:242-247 | the `uint16_t` counter never exceeds 65535 |
| LegacyCodec.WrappedStep | common/include/common/serialization.hpp:247 | `++nb` wraps from 65535 to 0 |
| LegacyCodec.WrappedIsMod | common/include/common/serialization.hpp:242-247 | after c increments the counter is c modulo 2^16 |
| LegacyCodec.Deserialize | common/include/common/serialization.hpp:318-322 | on a whole encoding, `deserialize` returns the decoded value and the number of bytes read |
| LegacyCodec.DeserializeContinuous | common/include/common/serialization.hpp:217-226 | continuous trivial decode |
| LegacyCodec.DeserializeIterable | common/include/common/serialization.hpp:253-269 | iterable decode: the count, then that many elements in order |
| LegacyCodec.DeserializeAggregate | common/include/common/serialization.hpp:289-296 | aggregate decode: the fields in order |
| LegacyCodec.DeserializeElement | common/include/common/serialization.hpp:265-266 | one element step moves a decoded element from the rest to the done part |
| LegacyCodec.DeserializeField | common/include/common/serialization.hpp:292-294 | one field step moves a decoded field from the rest to the done part |
| Streams.ProbeIterableLoop | common/include/serialization_base.hpp:447-461 | the probe loop computes `Probe` |
| Streams.DecodeElements | common/include/serialization_base.hpp:469-482 | the element loop computes `DecodeMany` |
| Streams.DecodeIterableLoop | common/include/serialization_base.hpp:469-482 | the iterable deserialization computes `Decode` |
| Streams.Stream.constructor | common/include/serialization_base.hpp:42-68 | a stream over a whole buffer, without error |
| Streams.Stream.Serialize | common/include/serialization_base.hpp:279-282 | for a value whose counts fit 16 bits (`NABU_ASSERT_SERIALIZED_COUNT`, lines 133-136) and a span that holds it, writes the encoding at `begin` and advances `begin` by the size |
| Streams.Stream.TrySerialize | common/include/serialization_base.hpp:283-289 | for a value whose counts fit 16 bits, succeeds exactly when the size fits the span and then writes the encoding; on failure nothing changes |
| Streams.Stream.ThrowSerialize | common/include/serialization_base.hpp:290-295 | for a value whose counts fit 16 bits, throws `write_buffer_overflow` exactly when the size does not fit, changing nothing, and otherwise writes the encoding |
| Streams.Stream.Deserialize | common/include/serialization_base.hpp:303-306 | reads the decoded value and advances `begin` by what it consumed |
| Streams.Stream.TryDeserialize | common/include/serialization_base.hpp:307-313 | succeeds exactly when the probe is valid, which is exactly when the bytes decode; on failure the value and `begin` are untouched |
| Streams.Stream.ThrowDeserialize | common/include/serialization_base.hpp:314-319 | throws `read_buffer_overflow` exactly when the bytes do not decode |
| Streams.Stream.Write | common/include/serialization_base.hpp:70-109 | `<<` of a value whose counts fit 16 bits, per policy: raw writes; checked stays failed once failed and otherwise records failure; throwing throws on overflow |
| Streams.Stream.Read | common/include/serialization_base.hpp:70-109 | `>>` per policy, with the same sticky error and throw behaviour |
| Reflection.IdOfByte | common/include/reflection.hpp:33 | an `int8_t` id read from a byte lies in [-128, 127] |
| Reflection.IdByteRoundTrip | common/include/reflection.hpp:33 | byte and `int8_t` id convert into each other without loss |
| Reflection.ValidIdBytes | common/include/reflection.hpp:35-40 | a byte read as id is valid exactly when it is at most 50; bytes from 128 up are negative ids |
| Reflection.RemoveQualifierAsWrittenIgnoresStruct | common/src/reflection.cpp:7-13 | the 6-character prefix can never equal "struct ", so "struct Foo" is returned unchanged |
| Reflection.RemoveQualifier | common/src/reflection.cpp:7-13 | the name is the result itself, or the result behind "struct " or "class "; the result is shorter exactly when the name starts with one of the two |
| Reflection.RemoveQualifierIsSuffix | common/src/reflection.cpp:7-13 | both versions return a suffix of the name and agree on every name not starting with "struct " |
| MessageParser.Frame | common/include/msg/parser.hpp:41-50 | a frame is four token/id bytes longer than the message |
| MessageParser.Deframe | common/include/msg/parser.hpp:52-92 | reading a frame consumes at most the span |
| MessageParser.Parser.constructor | common/include/msg/parser.hpp:38-39 | the parser keeps its tokens and has `id_max_value + 1` empty callback slots |
| MessageParser.Parser.SetCallback | common/include/msg/parser.hpp:75-93 | stores the callback in the slot of its message id and changes no other slot |
| MessageParser.Parser.Serialize | common/include/msg/parser.hpp:41-50 | streams the begin token, id, separator, message and end token in order, stopping at the first failure per the stream's policy |
| MessageParser.Parser.Deserialize | common/include/msg/parser.hpp:52-73 | outcome and bytes consumed are exactly `Deframe`'s |
| MessageParser.Parser.Invoke | common/include/msg/parser.hpp:83-92 | the callback decodes the message, checks the end token and delivers the message to the user function |
| MessageParser.PutHeader | common/include/msg/parser.hpp:45-47 | the three header bytes are streamed |
| MessageParser.Put | common/include/msg/parser.hpp:45-49 | one `<<` extends the written prefix of the frame |
| MessageParser.PutRaw | common/include/serialization_base.hpp:72-76 | a raw `<<` extends the written prefix |
| MessageParser.PutChecked | common/include/serialization_base.hpp:86-91 | a checked `<<` extends the prefix or leaves the stream failed |
| MessageParser.PutThrowing | common/include/serialization_base.hpp:101-105 | a throwing `<<` extends the prefix or throws with the prefix so far |
| MessageParser.FrameRoundTrip | common/include/msg/parser.hpp:41-92 | reading back a frame whose id has a callback delivers the same message to that callback's user function |
| MessageParser.DeframeChecksInOrder | common/include/msg/parser.hpp:53-72 | begin token, id range, callback presence and separator are checked in this order, each failing with its own error |
| MessageParser.DeframeDeliversToRegistered | common/include/msg/parser.hpp:64-72 | a delivery goes to the user function of the callback stored in the slot of the frame's id byte, with a message of that callback's type, which is registered for that id |
| MessageParser.LoginFrame | common/include/msg/types.hpp:18-22 | a login request frames as begin, id 0, separator, the two strings and end |
| MessageParser.TestValueFits | common/tests/parser.cpp:7-23 | the test message `{42, "hello"}` has size 11 and frames into 15 bytes |
| MessageParser.SendTest | common/tests/parser.cpp:20-26 | after serializing into a fresh 100-byte throwing stream and resetting `begin`, the unconsumed bytes start with the frame of the test message |
| MessageParser.ParserTest | common/tests/parser.cpp:19-38 | serializing the test message and deserializing it with a registered callback delivers the same message |
| Config.Step | common/src/configuration.cpp:50-139 | every parse function ends the line or fails on NUL |
| Config.ParseLine | common/src/configuration.cpp:154-158 | the `while (parser)` loop computes `Scan` of the whole line |
| Config.EndAcceptsTrailer | common/src/configuration.cpp:85-92 | after a value, the rest of the line is accepted exactly when it is spaces and then end or a comment |
| Config.SkipSpaces | common/src/configuration.cpp:72-83 | leading spaces are skipped |
| Config.BlankOrComment | common/src/configuration.cpp:72-83 | a blank or comment line yields nothing |
| Config.ReadSection | common/src/configuration.cpp:94-104 | section characters accumulate into the section name |
| Config.SectionLine | common/src/configuration.cpp:94-104 | `[name]` followed by a trailer yields that section |
| Config.SectionUnclosed | common/src/configuration.cpp:94-104 | a section without `]` is refused |
| Config.ReadKey | common/src/configuration.cpp:106-117 | key characters accumulate into the key |
| Config.ReadText | common/src/configuration.cpp:119-125 | string characters accumulate into the value |
| Config.ReadDigits | common/src/configuration.cpp:127-139 | digits accumulate into the value |
| Config.KeyInterrupted | common/src/configuration.cpp:106-117 | a key ended by end of line, `#`, a quote or a bracket is refused |
| Config.KeyThenJunk | common/src/configuration.cpp:50-56 | a key followed by spaces and something other than `=` is refused |
| Config.SkipBeforeSpaces | common/src/configuration.cpp:50-56 | spaces before `=` are skipped |
| Config.SkipBeforeEquals | common/src/configuration.cpp:50-56 | `=` moves on to the value |
| Config.SkipAfterEquals | common/src/configuration.cpp:58-70 | spaces after `=` are skipped |
| Config.ReadAssignment | common/src/configuration.cpp:72-117 | `key =` reads the key and stops at the value |
| Config.StringLine | common/src/configuration.cpp:58-125 | `key = "text"` plus a trailer yields a string entry |
| Config.UnterminatedString | common/src/configuration.cpp:119-125 | a string without a closing quote fails with "end of line" |
| Config.NumberLine | common/src/configuration.cpp:58-139 | `key = digits` plus a trailer yields a number entry |
| Config.NumberThenJunk | common/src/configuration.cpp:127-139 | a non-digit right after the digits is refused |
| ConfigFile.StepFills | common/src/configuration.cpp:50-139 | every parse function keeps the context consistent with the phase |
| ConfigFile.ScanFills | common/src/configuration.cpp:154-158 | an accepted line is a well-formed entry: nothing, a section, or a key with a string or digit value |
| ConfigFile.Apply | common/src/configuration.cpp:160-169 | storing an entry keeps the reader's invariant |
| ConfigFile.ApplyEffect | common/src/configuration.cpp:160-169 | nothing changes nothing; a header selects (and creates) its section; an entry needs a section and overwrites its key there |
| ConfigFile.LastAssignmentWins | common/src/configuration.cpp:165-168 | of two assignments to one key, the second is kept |
| ConfigFile.RepeatedHeader | common/src/configuration.cpp:162 | a repeated header keeps the section's entries and selects it again |
| ConfigFile.Load | common/src/configuration.cpp:172-184 | the file loop computes `LoadFrom` from an empty map |
| ConfigFile.EntryBeforeHeader | common/src/configuration.cpp:164 | an entry before any header fails at its line |
| ConfigFile.LoadStep | common/src/configuration.cpp:175-176 | loading continues from the state after the current line |
| ConfigFile.HeaderLine | common/src/configuration.cpp:192-196 | a header `[name]` alone on its line, as `[server]` and `[logger]` are, reads as section `name` |
| ConfigFile.IpLine | common/src/configuration.cpp:193 | the ip line reads as the string "127.0.0.1" |
| ConfigFile.PortLine | common/src/configuration.cpp:194 | the port line reads as the number text "43210" |
| ConfigFile.PortNumber | common/src/configuration.cpp:167 | "43210" converts to 43210 |
| ConfigFile.VerbosityLine | common/src/configuration.cpp:197 | the verbosity line reads as "debug" |
| ConfigFile.OutputLine | common/src/configuration.cpp:198 | the output line, comment included, reads as "console" |
| ConfigFile.DefaultConfig | common/src/configuration.cpp:188-199 | the default file loads to server {ip, port} and logger {verbosity, output} |
| Allocators.GrowthKeepsSize | common/include/allocators.hpp:74 | with a grow factor of at least 1 the next chunk is never smaller |
| Allocators.Pop | common/include/allocators.hpp:97-99 | taking the head leaves a free list of the remaining blocks, with the head now in use |
| Allocators.Push | common/include/allocators.hpp:102-106 | linking a used block in front makes it the new free head |
| Allocators.FreshChunk | common/include/allocators.hpp:70-81 | a chunk linked block to block, ending in null, is a free list of its blocks |
| Allocators.BlockResource.constructor | common/include/allocators.hpp:85-91 | one chunk of `chunk_size` free blocks, none used; the next chunk size is already grown once, `chunk_size * growNum / growDen`, because the constructor runs `add_chunk` |
| Allocators.BlockResource.AddChunk | common/include/allocators.hpp:70-81 | appends a chunk of the current size, grows the next size by the factor (truncated), and makes the new blocks the free list in order |
| Allocators.BlockResource.Allocate | common/include/allocators.hpp:94-100 | returns the head of the free list, which loses it, and changes no link, chunk or next chunk size; on an empty list it first adds a chunk of the next size, grows that size by the factor, and returns the chunk's first block; the block was not in use and now is |
| Allocators.BlockResource.Deallocate | common/include/allocators.hpp:102-106 | the block's link points to the old head and the block becomes the free head; chunks and the next chunk size are unchanged |
| Allocators.DeallocateThenAllocate | common/include/allocators.hpp:94-106 | the free list is LIFO: the block just freed is the next one handed out |
| Allocators.BlockAllocator.constructor | common/include/allocators.hpp:25-31 | `max_continuous_allocation` is the block size divided by the object size |
| Allocators.BlockAllocator.Allocate | common/include/allocators.hpp:39-45 | a request within the limit gets one block of the resource: the free head, or the first block of a chunk added at the next chunk size when the list was empty, with the resource's free list, links, chunks and next chunk size updated as its `allocate` does |
| Allocators.BlockAllocator.Deallocate | common/include/allocators.hpp:47-49 | returns the block to the resource: it becomes the free head linked to the old one; chunks and the next chunk size are unchanged |
| Allocators.HybridAllocator.constructor | common/include/allocators.hpp:145-152 | no live allocation |
| Allocators.HybridAllocator.Allocate | common/include/allocators.hpp:164-168 | the block pool serves a request exactly when the predicate accepts its size, and then returns the free-list head, or the first block of a new chunk when the list is empty, with the pool's new free list, links, chunks and next chunk size; otherwise the backup allocator returns a fresh id and the pool is unchanged |
| Allocators.HybridAllocator.Deallocate | common/include/allocators.hpp:170-174 | an allocation is returned to the allocator that served it: a block is pushed on the pool's free list (new head, its link to the old head, chunks and next chunk size kept, no longer used); a backup allocation leaves the pool unchanged |
| Reactor.SurvivorsMembership | common/include/reactor.hpp:48-67 | a callback survives `consume` exactly when it is in the list and returned false without throwing |
| Reactor.SurvivorsAreSubsequence | common/include/reactor.hpp:48-67 | `consume` never adds callbacks, and keeps the list unchanged exactly when every callback keeps |
| Reactor.SurvivorsIdempotent | common/include/reactor.hpp:48-67 | with the same behaviour, consuming again keeps the same survivors |
| Reactor.RegisterEffect | common/include/reactor.hpp:151-162 | registration grows the table to `id + 1`, registers the id, keeps a destructor already set and touches no other entry |
| Reactor.RegisterIdempotent | common/include/reactor.hpp:151-162 | registering an id twice equals registering it once |
| Reactor.RaisedRegistered | common/include/reactor.hpp:189-200 | events notified from callbacks have registered ids |
| Reactor.ClosedStable | common/include/reactor.hpp:189-200 | that property survives any table with the same registrations |
| Reactor.PushEarliestFirst | common/include/reactor.hpp:80-89 | inserting a delayed event adds one entry |
| Reactor.PushEarliestFirstAdds | common/include/reactor.hpp:213 | the queue gains exactly the new event |
| Reactor.PushEarliestFirstKeepsOrder | common/include/reactor.hpp:80-89 | the queue stays earliest first |
| Reactor.PushLatestFirst | common/include/reactor.hpp:80-89 | inserting with the comparer as written adds one entry |
| Reactor.PushLatestFirstAdds | common/include/reactor.hpp:213 | the as-written queue gains exactly the new event |
| Reactor.PushLatestFirstKeepsOrder | common/include/reactor.hpp:80-89 | the `std::priority_queue` with `lhs.timeout < rhs.timeout` keeps the latest event on top |
| Reactor.Released | common/include/reactor.hpp:247-254 | the delayed phase releases a prefix of the queue |
| Reactor.ReleasesExactlyDue | common/include/reactor.hpp:246-254 | on an earliest-first queue, exactly the events due by `now` are released |
| Reactor.ReleasesAllOrNothing | common/include/reactor.hpp:246-254 | on the as-written latest-first queue, everything or nothing is released |
| Reactor.DueEventHeldBack | common/include/reactor.hpp:80-89 | with events due at 1 and 5 and now 3, the as-written queue releases nothing, while the corrected one releases the first event |
| Reactor.RunCallbacks | common/include/reactor.hpp:48-65 | the loop over the callback list keeps exactly the survivors and collects what they notified |
| Reactor.Reactor.constructor | common/include/reactor.hpp:132-137 | an empty reactor |
| Reactor.Reactor.RegisterEvent | common/include/reactor.hpp:151-162 | the table becomes `Register` of the old one; queues are unchanged |
| Reactor.Reactor.Subscribe | common/include/reactor.hpp:172-187 | the callback is appended to its id's list; nothing else changes |
| Reactor.Reactor.Notify | common/include/reactor.hpp:189-200 | the event is appended to the immediate queue with a fresh handle |
| Reactor.Reactor.NotifyDelayed | common/include/reactor.hpp:202-214 | the event joins the delayed queue with a fresh handle, in the corrected earliest-first order (see Findings) |
| Reactor.Reactor.Consume | common/include/reactor.hpp:48-67 | the callbacks are called in order, the survivors stay, notified events are queued, and the event is destroyed once |
| Reactor.ConsumeOneEffect | common/include/reactor.hpp:48-67 | one `consume`: each callback of the event's list is called once, in order; exactly those that returned false stay; no other slot changes; notified events join the queue's end with consecutive fresh handles; the event is destroyed once |
| Reactor.DispatchSpawns | common/include/reactor.hpp:237-254 | consuming a queue of events only appends events, with consecutive fresh handles |
| Reactor.DispatchDestroys | common/include/reactor.hpp:237-254 | consuming a queue of events destroys each of them once, in queue order |
| Reactor.DispatchCalls | common/include/reactor.hpp:237-254 | consuming a queue of events keeps earlier calls, and every new call hands over one of those events |
| Reactor.Reactor.Handle | common/include/reactor.hpp:240-243 | one queued event is consumed: the new callback table, queue, handle counter, call log and destructor log are those of one `consume` of it; new events are registered |
| Reactor.Reactor.HandleFirst | common/include/reactor.hpp:240-243 | one iteration of the event phase pops the oldest event and consumes it, extending the fold by that event |
| Reactor.Reactor.EventPhase | common/include/reactor.hpp:237-244 | the new table, queue, handle counter, call log and destructor log are those of consuming every event queued at the start, in order, from an empty queue: events notified meanwhile wait for the next update |
| Reactor.Reactor.HandleDue | common/include/reactor.hpp:249-253 | one iteration of the delayed phase pops the top, which is due, and consumes it, extending the fold by that event |
| Reactor.Reactor.DelayedPhase | common/include/reactor.hpp:246-254 | the due prefix of the (earliest-first) delayed queue is removed and consumed in order, the new state being that fold, and the rest stays |
| Reactor.Reactor.Update | common/include/reactor.hpp:237-254 | the new state is the event-phase fold over the old immediate events followed by the fold over the due delayed events; both are destroyed in that order, and every event left queued has a fresh handle |

## Left out

- Custom serialization hooks (`custom_serialized_size` and friends) of the legacy codec are foreign calls. Their tag is classified; the calls are not modelled.
- Native byte order: the count and trivial values are byte blobs, with the count fixed little-endian.
- Floating point: the grow factor is a fraction `growNum / growDen`, truncated like the `static_cast<int>` of a float product. Float rounding is not modelled. `next_chunk_size_` is an `int` that repeated growth can overflow; `nextChunkSize` is a `nat`, so that overflow is not modelled either.
- Codec.DecodeIterable, LegacyCodec.DeserializeIterable: only sequence containers that append each element (`emplace_back`, or `insert` at the end) are modelled. The source inserts through `emplace` (common/include/meta.hpp:159-169): `emplace_front` reverses the wire order, and `emplace` into a `std::set` or `std::map` sorts and drops duplicates; the legacy `val.insert(std::end(val), v)` (common/include/common/serialization.hpp:262-266) also drops duplicates for a set. For example, a count of 2 followed by the same `int` twice decodes into a `std::set<int>` of one element, where the model keeps two items. The round trips are therefore stated for sequence containers only.
- Allocators.BlockResource.constructor: requires a chunk size of at least 1. The source indexes `chunk[-1]` for a zero size, which is undefined behaviour.
- Allocators.HybridAllocator.Allocate: the backup allocator is abstract. It returns a fresh id, and its memory is not modelled.
- Memory itself: blocks are indices, and their storage, `alignas` and `sizeof` are not modelled.
- `has_id`, `name_of`, `demangle`'s call into `abi::__cxa_demangle`, logging and `NABU_ASSERT` messages are left out. The asserts become `requires` clauses.
- Streams.Stream.Serialize, Streams.Stream.TrySerialize, Streams.Stream.ThrowSerialize and Streams.Stream.Write require `Fits`: every array or iterable count is at most 65535. This is `NABU_ASSERT_SERIALIZED_COUNT` (serialization_base.hpp:133-136), which a release build assumes. With a longer array the release build would write the count modulo 2^16 but copy only that many elements, so the model does not say what it writes. `Codec.Encode` still writes the truncated count followed by every element, which is what the legacy codec does.
- MessageParser.Parser.Deserialize: modelled for the throwing stream only. The parser's own test uses that one; with the other policies the source reads an uninitialised token on failure.
- `parser_error` message texts: failures are datatype values that name what was wrong.
- Exceptions are returned values (`Outcome`, `Result`). Unwinding through user code, and exceptions other than the overflows and `parser_error`, are not modelled.
- LegacyCodec.Deserialize: requires a whole encoding, because the source reads past the end of any other input (undefined behaviour).
- Config.CharAt: an embedded NUL ends the line, as in the C string the source reads.
- ConfigFile.Apply: `std::stoi` overflow is not modelled. Digits convert to an unbounded natural number.
- ConfigFile.Load: file I/O, the `std::cout` report, the caret position and `std::terminate` are left out. The error is returned with its line number. The `char` thrown after `=` and the `char const*` thrown for an entry before a header escape the `catch (std::string const&)`; they are distinct error values here.
- `configuration_type`'s lookups, including its `ASSERT_IT` macro, which tests `server_it` for every section, are not part of this model. So are creating the default file on disk and `toml_file`'s accessors.
- Reactor: callbacks are a pure `Behaviour` of callback and event. They may notify immediate events, but subscribing, registering and delayed notifying from inside a callback are not modelled. Neither is callback state between calls.
- Reactor: `sync_task`, its mutex, and `add_routine` with the routine loop are not modelled. That loop erases through `it` without reassigning it, which is undefined behaviour.
- Reactor: the clock is a parameter `now`. Event objects, their allocator, and the typed `create_event`/`destroy_event` are handles and a destructor log.
- Reactor.PushEarliestFirst: ties between equal timeouts are kept in notification order. `std::priority_queue` does not promise an order for ties.
- Reactor.Reactor.NotifyDelayed: pushes in the corrected earliest-first order (`PushEarliestFirst`), not with the comparer as written (`reactor.hpp:80-89`), and `Reactor.Reactor.Valid` keeps the queue `Ascending`. The as-written latest-first queue is modelled only by `PushLatestFirst`, `ReleasesAllOrNothing` and `DueEventHeldBack` (see Findings).
- Reactor.Reactor.DelayedPhase: releases from the corrected earliest-first queue, so it releases exactly the due events (`ReleasesExactlyDue`). On the queue as written it would release all or nothing.
- Reactor.Reactor.Update: inherits the corrected delayed-queue order from `NotifyDelayed` and `DelayedPhase`.
- Reactor.Reactor.IsEmpty: has no contract row. It is the plain conjunction of both queues being empty.
- Codec.OptionalSizeAsWritten: the line as written is ill-formed (an optional converts to `bool` only explicitly, so it cannot be added to `sizeof(bool)`) and does not compile once instantiated; the function models what its grouping says, and only the filled case, since on an empty optional that reading dereferences it.
- Streams.Stream: the checked and throwing paths use the value size as computed by `Codec.Size`, which is the corrected optional size (see Findings).

## Findings

| source | as written | input that shows it | evidently intended | confidence | as-written member | corrected member |
|---|---|---|---|---|---|---|
| common/include/serialization.hpp:15 | `sizeof(bool) + opt ? serialized_size(*opt) : 0` groups as `(sizeof(bool) + opt) ? ...`; the sum is ill-formed, because an optional converts to `bool` only explicitly, so the hook does not compile once instantiated, and under the grouping it has the condition would always hold and the flag byte would be left out | instantiating the hook for any optional, e.g. an optional `int` holding a value: a compile error, where the grouping reads as size 4 instead of 5 | the flag byte plus the value's size, which is what serialize writes and what the probe reports | not executed | CodecProofs.OptionalSizeAsWrittenIsShort | Codec.Encode |
| common/src/reflection.cpp:8-9 | the name's first 6 characters are compared with "struct " (7 characters), so a struct name is never stripped | "struct Foo" is returned unchanged | strip "struct " as "class " is stripped | not executed | Reflection.RemoveQualifierAsWrittenIgnoresStruct | Reflection.RemoveQualifier |
| common/include/reactor.hpp:80-89 | `std::priority_queue` with `lhs.timeout < rhs.timeout` puts the latest timeout on top, and `update` stops at the first event not yet due | events due at 1 and 5, `now` = 3: the event due at 1 is held back | release every event whose timeout has passed, earliest first | not executed | Reactor.ReleasesAllOrNothing | Reactor.ReleasesExactlyDue |
