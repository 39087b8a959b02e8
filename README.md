# Hazelcast executor configuration and queue add-all backup, in Dafny

This project models two small pieces of a Hazelcast node:

- `ExecutorConfig` is the named, mutable record that sizes one worker pool. Its fields are a name, a core and a maximum pool size, a work-queue capacity, a keep-alive time and one of three executor types. It has three setters that validate their argument and fail fast, unchecked setters and constructors, and a field-by-field serialiser `writeData`/`readData`.
- `AddAllBackupOperation` is the backup half of a queue's `addAll`. It carries a queue name and an ordered list of nullable `Data` blobs. `writeInternal` writes a count-prefixed list, `readInternal` reads one back into a fresh list, and `run` hands the whole list to the backup container.

The model works at the byte level:

- `Wire` gives the pure byte formats the two serialisers rely on:
  - `writeInt`/`readInt`: four bytes, big-endian, two's complement.
  - `writeUTF`/`readUTF`: a two-byte count, then modified UTF-8 of the string's UTF-16 code units, with the 65535-byte limit.
  - The nullable-`Data` layout: a presence byte, then, when a blob is present, its int length and its bytes.
- `Streams` has two classes: `ByteOutput`, an output that appends, and `ByteInput`, an input read from a moving position. Each stream method is specified by the matching `Wire` function.
- `Config` holds `ExecutorConfig` as a class whose setters assign fields.
  - Java's `IllegalArgumentException` becomes an error result, carrying the source's own message.
  - `writeData` and `readData` are methods on the streams, specified by `EncodeConfig` and `DecodeConfig`.
- `Queue` holds `AddAllBackupOperation` as a class, and the backup container as a class with a sequence field.
  - `writeInternal` and `readInternal` keep their loops.
  - They are specified by `EncodeOp` and `DecodeOp`.

The main results:

- Round trips, stated at any position in a larger stream:
  - Reading a config back gives all six fields of the one written, whether or not they are valid.
  - Reading an operation back gives its name and its list, entry for entry, nulls in place and in order.
- An unknown executor-type name is rejected with `valueOf`'s error, and that is the only way a well-formed config record fails.
- A negative count is rejected.
- A count of zero reads an empty list.
- On a successful read, the list always has as many entries as the count said.
- The validating setters reject exactly the values the source rejects, leave the object unchanged when they reject, and change only their own field when they accept.
- Two end-to-end methods (`SendConfig`, `SendToReplica`) serialise an object into a fresh stream and deserialise it into a fresh object. They prove the copy equals the original.

Where the design description and the code disagree, the model follows the code:

- The design asks that construction reject invalid sizes. The four-argument constructor (`ExecutorConfig.java:57-62`) stores them unchecked. `ExecutorConfig.WithSizes` states that the result is valid exactly when the arguments are.
- `readData` (`ExecutorConfig.java:165-172`) does not validate either. `ReadDataSkipsValidation` shows that an invalid record is read back as it stands.
- The design describes a count that does not match the entries as a decode error. The code reads exactly `size` entries. A stream that ends early gives `EOFException`, a negative count gives the `IllegalArgumentException` of `new ArrayList(size)`, and bytes after the last entry are simply not read.

## Model

| member | source | states |
|---|---|---|
| Wire.EncodeInt32 | hazelcast/src/main/java/com/hazelcast/config/ExecutorConfig.java:158-161 | writeInt emits exactly four bytes |
| Wire.DecodeInt32 | hazelcast/src/main/java/com/hazelcast/config/ExecutorConfig.java:167-170 | readInt succeeds exactly when four bytes remain, moves past exactly those four, and otherwise fails with end of stream |
| Wire.Int32RoundTrip | hazelcast/src/main/java/com/hazelcast/config/ExecutorConfig.java:158-170 | wherever writeInt's bytes for x lie, readInt there returns x and stops four bytes on |
| Wire.Int32Bytes | hazelcast/src/main/java/com/hazelcast/config/ExecutorConfig.java:158-170 | the four bytes written for x, weighted big-endian and read as two's complement, give x back |
| Wire.Int32Canonical | hazelcast/src/main/java/com/hazelcast/config/ExecutorConfig.java:167-170 | any four bytes readInt consumes are exactly writeInt's encoding of the int it returns, so the int encoding is a bijection |
| Wire.UtfUnit | hazelcast/src/main/java/com/hazelcast/config/ExecutorConfig.java:157 | one code unit takes one byte exactly when it is in 1..0x7F, three exactly when it is 0x800 or above, and two otherwise (0 included) |
| Wire.UtfBody | hazelcast/src/main/java/com/hazelcast/config/ExecutorConfig.java:157 | the modified UTF-8 body of a string is between one and three bytes per code unit |
| Wire.EncodeUtf | hazelcast/src/main/java/com/hazelcast/config/ExecutorConfig.java:157 | writeUTF fails with the too-long error exactly when the body is over 65535 bytes; otherwise it emits a two-byte count and the body |
| Wire.ShortStringsEncode | hazelcast/src/main/java/com/hazelcast/config/ExecutorConfig.java:162 | every string of at most 21845 code units fits writeUTF's limit |
| Wire.DecodeUtfBody | hazelcast/src/main/java/com/hazelcast/config/ExecutorConfig.java:166 | decoding a body fails only with the malformed-UTF error and never yields more code units than bytes |
| Wire.DecodeGroup | hazelcast/src/main/java/com/hazelcast/config/ExecutorConfig.java:166 | one lead group then the rest of the body, with the same error and length bounds |
| Wire.DecodeUtf | hazelcast/src/main/java/com/hazelcast/config/ExecutorConfig.java:166 | on success readUTF stops exactly past the two-byte count and the number of body bytes it gives |
| Wire.UtfUnitRoundTrip | hazelcast/src/main/java/com/hazelcast/config/ExecutorConfig.java:157-166 | decoding one unit's bytes followed by any rest yields that unit followed by the decoding of the rest, or the rest's error |
| Wire.TwoByteGroup | hazelcast/src/main/java/com/hazelcast/config/ExecutorConfig.java:157-166 | the two bytes of 0 or 0x80..0x7FF are a well-formed group that decodes back to the unit |
| Wire.ThreeByteGroup | hazelcast/src/main/java/com/hazelcast/config/ExecutorConfig.java:157-166 | the three bytes of a unit at or above 0x800 are a well-formed group that decodes back to the unit |
| Wire.UtfBodyRoundTrip | hazelcast/src/main/java/com/hazelcast/config/ExecutorConfig.java:157-166 | the body of every string decodes back to that string |
| Wire.UtfFrame | hazelcast/src/main/java/com/hazelcast/config/ExecutorConfig.java:157-166 | where writeUTF's output lies, the count read back is the body's length and the body follows it |
| Wire.UtfRoundTrip | hazelcast/src/main/java/com/hazelcast/config/ExecutorConfig.java:157-166 | wherever writeUTF's output for a string lies, readUTF there returns the string and stops at its end |
| Wire.EncodeNullableData | hazelcast/src/main/java/com/hazelcast/queue/AddAllBackupOperation.java:52 | the first byte of an entry's form is zero exactly when the entry is null |
| Wire.DecodeNullableData | hazelcast/src/main/java/com/hazelcast/queue/AddAllBackupOperation.java:61 | a zero presence byte reads as null and moves one byte; any success stays within the stream |
| Wire.NullableDataRoundTrip | hazelcast/src/main/java/com/hazelcast/queue/AddAllBackupOperation.java:51-62 | wherever an entry was written, null or not, reading there gives it back and stops at its end |
| Streams.ByteOutput.WriteInt | hazelcast/src/main/java/com/hazelcast/config/ExecutorConfig.java:158-161 | appends writeInt's four bytes to the output |
| Streams.ByteOutput.WriteUtf | hazelcast/src/main/java/com/hazelcast/config/ExecutorConfig.java:157 | appends writeUTF's bytes, or fails with the too-long error and writes nothing |
| Streams.ByteOutput.WriteNullableData | hazelcast/src/main/java/com/hazelcast/queue/AddAllBackupOperation.java:52 | appends the entry's nullable form |
| Streams.ByteInput.ReadInt | hazelcast/src/main/java/com/hazelcast/config/ExecutorConfig.java:167-170 | returns what DecodeInt32 gives at the current position and moves past it, or fails with its error |
| Streams.ByteInput.ReadUtf | hazelcast/src/main/java/com/hazelcast/config/ExecutorConfig.java:166 | returns what DecodeUtf gives at the current position and moves past it, or fails with its error |
| Streams.ByteInput.ReadNullableData | hazelcast/src/main/java/com/hazelcast/queue/AddAllBackupOperation.java:61 | returns what DecodeNullableData gives at the current position and moves past it, or fails with its error |
| Config.ExecutorType.Name | hazelcast/src/main/java/com/hazelcast/config/ExecutorConfig.java:46-48 | the name() of each of the three constants, between 6 and 16 code units long |
| Config.ExecutorTypeValueOf | hazelcast/src/main/java/com/hazelcast/config/ExecutorConfig.java:171 | valueOf succeeds exactly on the three names, returns the constant whose name was given, and otherwise fails with the unknown-name error |
| Config.ValueOfName | hazelcast/src/main/java/com/hazelcast/config/ExecutorConfig.java:162-171 | valueOf inverts name() for every constant |
| Config.ExecutorConfig.constructor | hazelcast/src/main/java/com/hazelcast/config/ExecutorConfig.java:27-51 | a new config holds "default", 40, 40, capacity Integer.MAX_VALUE, 300 seconds and Parallel, and satisfies the setters' invariant |
| Config.ExecutorConfig.Named | hazelcast/src/main/java/com/hazelcast/config/ExecutorConfig.java:53-55 | the defaults with the given name; valid |
| Config.ExecutorConfig.WithSizes | hazelcast/src/main/java/com/hazelcast/config/ExecutorConfig.java:57-62 | stores the name and three sizes unchecked over the defaults; the result is valid exactly when the sizes are |
| Config.ExecutorConfig.SetName | hazelcast/src/main/java/com/hazelcast/config/ExecutorConfig.java:68-71 | changes only the name and returns the same object |
| Config.ExecutorConfig.SetCorePoolSize | hazelcast/src/main/java/com/hazelcast/config/ExecutorConfig.java:83-89 | accepts exactly the values >= 0 (zero included) and changes only that field and returns the same object; otherwise fails with the source's message and changes nothing; keeps the invariant |
| Config.ExecutorConfig.SetMaxPoolSize | hazelcast/src/main/java/com/hazelcast/config/ExecutorConfig.java:101-107 | accepts exactly the values > 0, changing only that field; otherwise fails with the source's message and changes nothing; keeps the invariant |
| Config.ExecutorConfig.SetCapacity | hazelcast/src/main/java/com/hazelcast/config/ExecutorConfig.java:120-122 | stores any value, negative ones included, changing only the capacity |
| Config.ExecutorConfig.SetKeepAliveSeconds | hazelcast/src/main/java/com/hazelcast/config/ExecutorConfig.java:134-140 | accepts exactly the values > 0, changing only that field; otherwise fails with the source's message, spelling included, and changes nothing |
| Config.ExecutorConfig.SetExecutorType | hazelcast/src/main/java/com/hazelcast/config/ExecutorConfig.java:152-154 | changes only the type |
| Config.ExecutorConfig.WriteData | hazelcast/src/main/java/com/hazelcast/config/ExecutorConfig.java:156-163 | appends EncodeConfig of the six fields, or fails with the too-long error and leaves the output unchanged |
| Config.ExecutorConfig.ReadData | hazelcast/src/main/java/com/hazelcast/config/ExecutorConfig.java:165-172 | on success the six fields are DecodeConfig's record and the input is past it; on failure, DecodeConfig's error, with the type untouched |
| Config.ExecutorConfig.ReadSizes | hazelcast/src/main/java/com/hazelcast/config/ExecutorConfig.java:167-170 | assigns the four ints DecodeSizes reads, in wire order, leaving name and type alone |
| Config.RecordBytes | hazelcast/src/main/java/com/hazelcast/config/ExecutorConfig.java:156-163 | a record can be written exactly when both strings fit writeUTF; its length is the two strings' plus 16 |
| Config.TypeNameEncodes | hazelcast/src/main/java/com/hazelcast/config/ExecutorConfig.java:162 | the type's name always fits writeUTF |
| Config.EncodeConfigFields | hazelcast/src/main/java/com/hazelcast/config/ExecutorConfig.java:156-163 | writeData's bytes are the name, core, max, keep-alive, capacity and type name, in that order |
| Config.EncodeConfig | hazelcast/src/main/java/com/hazelcast/config/ExecutorConfig.java:156-163 | writeData fails exactly when the name is over writeUTF's limit, and then with the too-long error |
| Config.DecodeSizes | hazelcast/src/main/java/com/hazelcast/config/ExecutorConfig.java:167-170 | the four reads succeed exactly when 16 bytes remain and then stop 16 bytes on; otherwise end of stream |
| Config.DecodeConfig | hazelcast/src/main/java/com/hazelcast/config/ExecutorConfig.java:165-172 | a record read successfully spans at least 20 bytes inside the stream |
| Config.DecodeConfigSteps | hazelcast/src/main/java/com/hazelcast/config/ExecutorConfig.java:165-172 | when the three reads succeed back to back, readData's outcome is their record, or valueOf's error when the type string is not a name |
| Config.SizesRoundTrip | hazelcast/src/main/java/com/hazelcast/config/ExecutorConfig.java:158-170 | where the four ints were written, they are read back in the same order |
| Config.RecordFields | hazelcast/src/main/java/com/hazelcast/config/ExecutorConfig.java:156-171 | where a record was written, each read finds its own field where the previous read stopped |
| Config.ConfigRoundTrip | hazelcast/src/main/java/com/hazelcast/config/ExecutorConfig.java:156-172 | readData on writeData's output gives back all six fields, valid or not, and stops at its end |
| Config.UnknownTypeNameRejected | hazelcast/src/main/java/com/hazelcast/config/ExecutorConfig.java:171 | a well-formed record fails to read exactly when its type string is not one of the three names, and then with valueOf's error |
| Config.ReadDataSkipsValidation | hazelcast/src/main/java/com/hazelcast/config/ExecutorConfig.java:165-172 | a record with sizes the setters would reject is read back successfully, still invalid |
| Config.SendConfig | hazelcast/src/main/java/com/hazelcast/config/ExecutorConfig.java:156-172 | writeData then readData into a fresh config fails exactly when the name is too long; otherwise the copy has all six fields of the original |
| Queue.QueueContainer.AddAllBackup | hazelcast/src/main/java/com/hazelcast/queue/AddAllBackupOperation.java:45 | the container's sequence gets the whole list appended, in order |
| Queue.AddAllBackupOperation.Blank | hazelcast/src/main/java/com/hazelcast/queue/AddAllBackupOperation.java:36-37 | the blank operation that readInternal fills |
| Queue.AddAllBackupOperation.constructor | hazelcast/src/main/java/com/hazelcast/queue/AddAllBackupOperation.java:39-42 | stores the given name and list unchanged |
| Queue.AddAllBackupOperation.Run | hazelcast/src/main/java/com/hazelcast/queue/AddAllBackupOperation.java:44-46 | the container ends with its old contents followed by the whole list, and nothing else changes |
| Queue.AddAllBackupOperation.WriteInternal | hazelcast/src/main/java/com/hazelcast/queue/AddAllBackupOperation.java:48-54 | appends EncodeOp of the operation (header, count, entries in list order), or fails with the too-long error and writes nothing |
| Queue.AddAllBackupOperation.ReadInternal | hazelcast/src/main/java/com/hazelcast/queue/AddAllBackupOperation.java:56-63 | on success the name and a fresh list are DecodeOp's operation and the input is past it; otherwise DecodeOp's error |
| Queue.EncodeEntries | hazelcast/src/main/java/com/hazelcast/queue/AddAllBackupOperation.java:51-53 | each entry takes at least one byte |
| Queue.EntriesSnoc | hazelcast/src/main/java/com/hazelcast/queue/AddAllBackupOperation.java:51-53 | writing one more entry appends exactly its nullable form |
| Queue.DecodeEntries | hazelcast/src/main/java/com/hazelcast/queue/AddAllBackupOperation.java:60-62 | reading n entries yields exactly n of them, in read order |
| Queue.EncodeOp | hazelcast/src/main/java/com/hazelcast/queue/AddAllBackupOperation.java:48-54 | writeInternal fails exactly when the name is over writeUTF's limit, and then with the too-long error |
| Queue.DecodeOp | hazelcast/src/main/java/com/hazelcast/queue/AddAllBackupOperation.java:56-63 | a successful read has exactly as many entries as the count read after the header |
| Queue.EntriesErrorStays | hazelcast/src/main/java/com/hazelcast/queue/AddAllBackupOperation.java:60-62 | once an entry fails, every longer read of entries fails with the same error |
| Queue.EntriesRoundTrip | hazelcast/src/main/java/com/hazelcast/queue/AddAllBackupOperation.java:51-62 | where a list's entries were written, reading that many entries gives the list back, nulls in place, in order, and stops at their end |
| Queue.EntriesSplit | hazelcast/src/main/java/com/hazelcast/queue/AddAllBackupOperation.java:51-53 | a written list is its front's entries followed by its last entry's form |
| Queue.EntriesReadOne | hazelcast/src/main/java/com/hazelcast/queue/AddAllBackupOperation.java:60-62 | one more entry read where the others stopped is appended at the end |
| Queue.EntriesReadFails | hazelcast/src/main/java/com/hazelcast/queue/AddAllBackupOperation.java:60-62 | an entry that fails to read fails the longer read with its error |
| Queue.DecodeOpSteps | hazelcast/src/main/java/com/hazelcast/queue/AddAllBackupOperation.java:56-63 | when header, count and that many entries read back to back, readInternal's outcome is that name and list |
| Queue.DecodeOpFails | hazelcast/src/main/java/com/hazelcast/queue/AddAllBackupOperation.java:58-62 | when any counted entry fails to read, readInternal fails with that entry's error |
| Queue.OpSplit | hazelcast/src/main/java/com/hazelcast/queue/AddAllBackupOperation.java:48-54 | writeInternal's output is the header, then the count, then the entries, back to back |
| Queue.OpFields | hazelcast/src/main/java/com/hazelcast/queue/AddAllBackupOperation.java:48-63 | where an operation was written, the header, the count (the list's size) and the entries read back where the previous read stopped |
| Queue.OpRoundTrip | hazelcast/src/main/java/com/hazelcast/queue/AddAllBackupOperation.java:48-63 | readInternal on writeInternal's output gives the same name and an equal list, nulls in place and in order, and stops at its end |
| Queue.NegativeCountRejected | hazelcast/src/main/java/com/hazelcast/queue/AddAllBackupOperation.java:58-59 | a negative count after a valid header is rejected before any entry is read |
| Queue.ZeroCountEmpty | hazelcast/src/main/java/com/hazelcast/queue/AddAllBackupOperation.java:58-62 | a count of zero reads an empty list and nothing after the count |
| Queue.SendToReplica | hazelcast/src/main/java/com/hazelcast/queue/AddAllBackupOperation.java:48-63 | writeInternal then readInternal into a blank operation fails exactly when the name is too long; otherwise the copy equals the original |

## Left out

- The thread pools that an `ExecutorConfig` sizes, partition-to-worker routing, per-partition ordering and queue-capacity rejection are not modelled. The config is modelled as a data record only.
- Getters are not modelled as members, because the fields are readable directly.
- `toString` (`ExecutorConfig.java:174-184`) is left out: it is presentation only.
- The `BackupOperation` marker interface is left out: it has no behaviour.
- `QueueOperation`, the superclass, is not part of this model. Its `writeInternal`/`readInternal` header is taken to be `writeUTF(name)`/`readUTF()`.
- `IOUtil` is not part of this model. Its nullable layout is taken to be:
  - a presence byte, zero for null, read as a boolean (any non-zero byte means present);
  - then the blob's int length, where a negative length is an error;
  - then the blob's bytes.
- The internals of the queue container and `getContainer()` are not modelled. The container is a parameter of `Run`, and its only operation is an append of the whole list.
- Java `null` references are not modelled. The blank operation used before `readInternal` starts with an empty name and an empty list rather than null fields. Null *entries* of the list are modelled, as `None`.
- Queue.AddAllBackupOperation.ReadInternal: after a failed read the contract says nothing about the fields. Java leaves the name read so far and a partly filled list in place.
- Config.ExecutorConfig.ReadData: after a failed read only the executor type is stated unchanged. Java has already overwritten the fields read before the failure.
- ByteInput methods say nothing about the position after a failed read, because the callers abandon the stream.
- The `OutOfMemoryError` of `new ArrayList(size)` for a huge count is not modelled. A huge count with too few bytes gives end of stream instead.
- A `Collection`'s `size()` is an int: the list type bounds its length by `Integer.MAX_VALUE`.
- Bytes are integers 0..255 rather than bit-vectors. The arithmetic on them is written out explicitly: big-endian weights, two's complement, and the UTF-8 group bits.
- Strings are sequences of UTF-16 code units. No surrogate-pair or Unicode-level interpretation is made, matching `writeUTF`.
- Exceptions are error values:
  - `EOFException` is `EndOfStream`.
  - `UTFDataFormatException` is `MalformedUtf` when reading and `UtfTooLong` when writing.
  - The `IllegalArgumentException` of `valueOf` is `UnknownEnumName`, and that of `new ArrayList` is `NegativeSize`.
  - The setters' `IllegalArgumentException` is `IllegalArgument` with the source's message.
