# LibZ container reading and assembly resolution, in Dafny

LibZ packs .NET assemblies into one container file. Each entry is identified by the MD5 of its
lower-cased resource name and may be compressed. `LibZResolver` then hooks assembly resolution
and loads missing assemblies from the registered containers. This project models the read
side of that bootstrap code, from `trunk/LibZ.Bootstrap/LibZResolver.cs`. It proves that model
against specifications written as plain functions.

- **Binary** (`Binary.dfy`): the stream model. The container image is a `seq<bv8>` and the
  position is a separate value.
  - `BinaryReader`'s little-endian reads: `ReadInt32`, `ReadInt64`, `ReadUInt32`,
    `ReadBytes`, and `ReadString` with its 7-bit length prefix.
  - `new Guid(byte[])`, which throws when handed fewer than 16 bytes.
  - `ByteStream`, the stream object that `LibZReader` reads through. It has a shared position.
- **Crc** (`Crc32.dfy`): `Hash.CRC`.
  - The class `Hash` fills its 256-entry table in two nested loops.
  - Its table-driven loop is proved equal to a bit-by-bit CRC-32 (reflected polynomial
    0xEDB88320, preset and final complement).
  - The standard check value is proved as well.
- **Text** (`Text.dfy`): `ToLowerInvariant`, `Encoding.UTF8.GetBytes`, and the
  case-insensitive compare.
- **Codecs** (`Codecs.dfy`): the decoder registry. Codec ids are the CRC of the lower-cased name.
  - `RegisterDecoder` either adds a decoder, fails on a duplicate, or overwrites.
  - `Decode`: id 0 passes the data through, an unknown id is an error, any other id runs its
    decoder.
  - `DecoderRegistry` is the dictionary as a mutable object.
- **ContainerFormat** (`ContainerFormat.dfy`): the container format as values.
  - `Open` reads the header, the footer and the entry table. Its lemmas state each failure
    point and what a successful open holds.
  - `GetBytes` reads and decodes an entry's payload.
  - `HasEntry`, `IsManaged` and `GetAssemblyNames`.
- **Reader** (`Reader.dfy`): `LibZReader` as the stateful object it is.
  - `OpenFile` and `ReadEntry` advance the stream position and fill the entry dictionary in
    a counted loop.
  - `ReadData`, `GetBytes` and `ReadBytes` fetch payloads.
  - Each method is proved to compute exactly what the corresponding `ContainerFormat`
    function computes.
- **Resolution** (`Resolution.dfy`): the resolver's decision rules.
  - `TryLoadAssembly3` fixes the order of platform candidates.
  - `TryLoadAssembly(string)` takes the first container that loads, in registration order.
  - `TryLoadAssembly(container, guid)` loads a managed entry from memory and a native entry
    through the temp-file cache. It writes that file only when the file is absent or its
    length differs.
  - `MatchByShortName` is the short-name fallback: a case-insensitive filter, then a stable
    sort by descending version.
  - `Resolve`.
- **Sequences** (`Sequences.dfy`): a shared fact about concatenation that the proofs over names use.
- **Resolver** (`Resolver.dfy`): the resolver's state.
  - The container list. The `RegisterStream` callback never holds two containers with the
    same id.
  - `RegisterStreamContainer`, with its null-stream and optional-container handling.
  - The static constructor, which registers the Deflate decoder.

Exceptions become `Err(Failure)` values (`Errors.dfy`), and `null` becomes `None`. The runtime
parts of the host are parameters of a `Host` value:
- `IntPtr.Size`;
- MD5;
- `Assembly.Load` and `Assembly.LoadFile`;
- the contents of the cached temp file.

The container format's name parser (UTF-8 text to `AssemblyName`) is a parameter of `Open`.

Where the code and its documentation differ, the model follows the code:
- The decoded length is never compared with the entry's original length.
- A payload's place is never checked against the metadata offset.
- `LengthsUnchecked` proves that such an entry still reads.

## Model

| member | source | states |
|---|---|---|
| Binary.GuidAt | trunk/LibZ.Bootstrap/LibZResolver.cs:854 | reading a GUID succeeds exactly when 16 bytes remain, and the GUID is those 16 bytes |
| Binary.Int32At | trunk/LibZ.Bootstrap/LibZResolver.cs:858 | `ReadInt32` succeeds exactly when 4 bytes remain (otherwise "stream ended prematurely"), advances by 4, and yields the two's-complement little-endian value of those 4 bytes, in the int32 range |
| Binary.Int64At | trunk/LibZ.Bootstrap/LibZResolver.cs:862 | `ReadInt64` succeeds exactly when 8 bytes remain (otherwise "stream ended prematurely"), advances by 8, and yields the two's-complement little-endian value of those 8 bytes, in the int64 range |
| Binary.UInt32At | trunk/LibZ.Bootstrap/LibZResolver.cs:954 | `ReadUInt32` succeeds exactly when 4 bytes remain (otherwise "stream ended prematurely"), advances by 4, and yields the unsigned little-endian value of those 4 bytes |
| Binary.SevenBitIntAt | trunk/LibZ.Bootstrap/LibZResolver.cs:949 | the 7-bit encoded length prefix of `ReadString` consumes at least one byte within the image and yields an int32 |
| Binary.StringAt | trunk/LibZ.Bootstrap/LibZResolver.cs:949 | `ReadString` succeeds exactly when the length prefix reads, is non-negative and that many bytes follow it; it yields exactly those bytes and ends after them; a bad prefix, a negative length and a short image each give their own error |
| Binary.ByteStream.Seek | trunk/LibZ.Bootstrap/LibZResolver.cs:853 | setting the position succeeds exactly for a non-negative position, and a negative one leaves it unchanged |
| Binary.ByteStream.Next | trunk/LibZ.Bootstrap/LibZResolver.cs:854-862 | a read through the stream yields the read's value and moves the position past it, and only on success |
| Text.Lower | trunk/LibZ.Bootstrap/LibZResolver.cs:1256 | lower-casing keeps the length and maps every character to its lower-case form |
| Text.EqualsIgnoreCaseChars | trunk/LibZ.Bootstrap/LibZResolver.cs:491-499 | the case-insensitive compare holds exactly when the lengths agree and the characters agree after lower-casing |
| Crc.Hash.constructor | trunk/LibZ.Bootstrap/LibZResolver.cs:1215-1225 | the nested loops leave table entry `i` equal to eight bit steps of `i` under the reflected polynomial |
| Crc.Hash.Crc | trunk/LibZ.Bootstrap/LibZResolver.cs:1234-1243 | the table-driven loop returns the standard bit-by-bit CRC-32 of the bytes |
| Crc.CheckValue | trunk/LibZ.Bootstrap/LibZResolver.cs:1234-1243 | the CRC-32 of "123456789" is 0xCBF43926, the standard's check value |
| Codecs.AddDecoder | trunk/LibZ.Bootstrap/LibZResolver.cs:888-913 | registration succeeds exactly for a non-empty name, a decoder, and either overwrite or an id not yet present; each refusal gives its own error; on success the id maps to the decoder and every other id keeps its binding |
| Codecs.DecoderRegistry.RegisterDecoder | trunk/LibZ.Bootstrap/LibZResolver.cs:888-913 | `LibZReader.RegisterDecoder` hashes the name with `Hash.CRC` and updates the dictionary exactly as `AddDecoder` says; a refused registration leaves the dictionary as it was |
| Resolver.LibZResolver.RegisterDecoder | trunk/LibZ.Bootstrap/LibZResolver.cs:416-440 | `LibZResolver.RegisterDecoder` updates the resolver's own registry exactly as `AddDecoder` says, and a refused registration leaves it as it was; the container list is untouched |
| Codecs.Decode | trunk/LibZ.Bootstrap/LibZResolver.cs:922-935 | codec id 0 returns the data unchanged, and an id with no decoder is an "unknown codec" error |
| Codecs.DecodeAfterAdd | trunk/LibZ.Bootstrap/LibZResolver.cs:922-935 | once a decoder is registered under a non-zero id, decoding with that id is exactly that decoder's output |
| Codecs.AddLeavesOtherCodecs | trunk/LibZ.Bootstrap/LibZResolver.cs:899-912 | a registration does not change how any other codec id decodes |
| Codecs.CodecIdIgnoresCase | trunk/LibZ.Bootstrap/LibZResolver.cs:1256 | names equal but for letter case get the same codec id |
| Codecs.SecondRegistration | trunk/LibZ.Bootstrap/LibZResolver.cs:899-912 | after a name is registered, the same name in any case fails without overwrite (naming name and id) and replaces the decoder with overwrite |
| Codecs.DeflateCodecId | trunk/LibZ.Bootstrap/LibZResolver.cs:262 | the Deflate decoder registered at start-up sits under codec id 0xE2B06B05, which is not the pass-through id |
| ContainerFormat.EntryAt | trunk/LibZ.Bootstrap/LibZResolver.cs:943-957 | a record read succeeds only within the image, takes at least 41 bytes, and its hash is its first 16 bytes |
| ContainerFormat.EntryLayout | trunk/LibZ.Bootstrap/LibZResolver.cs:947-955 | a record is the 16-byte hash, the length-prefixed name right after it, then flags, offset, original length, stored length and codec id at 0, 4, 12, 16 and 20 bytes past the name, 24 bytes in all, and it ends there; it fails exactly when a field runs past the image (a short hash, the name's own error, or "stream ended prematurely") or the name does not parse (invalid assembly name) |
| ContainerFormat.Records | trunk/LibZ.Bootstrap/LibZResolver.cs:867-872 | the reference reading of the table yields exactly `count` records, or none for a count of zero or less |
| ContainerFormat.Header | trunk/LibZ.Bootstrap/LibZResolver.cs:853-860 | a header that reads yields the container id and version 103, and needs 36 bytes |
| ContainerFormat.Footer | trunk/LibZ.Bootstrap/LibZResolver.cs:861-866 | a footer that reads names a metadata offset the stream can seek to (non-negative) |
| ContainerFormat.Open | trunk/LibZ.Bootstrap/LibZResolver.cs:849-875 | an opened container keeps its image and has a non-negative metadata offset |
| ContainerFormat.OpenHeader | trunk/LibZ.Bootstrap/LibZResolver.cs:853-860 | fewer than 16 bytes, a wrong header magic and a version other than 103 each fail with their own error; on success bytes [0,16) are the magic, the int32 at 32 is 103 and the container id is bytes [16,32) |
| ContainerFormat.OpenFooter | trunk/LibZ.Bootstrap/LibZResolver.cs:861-865 | with a valid header, a last 16 bytes other than the magic fail as an invalid footer; on success the metadata offset is the int64 at `Length - 24` |
| ContainerFormat.ReadEntriesSucceeds | trunk/LibZ.Bootstrap/LibZResolver.cs:867-872 | the table loop succeeds exactly when every record reads and no hash repeats |
| ContainerFormat.ReadEntriesOrder | trunk/LibZ.Bootstrap/LibZResolver.cs:867-872 | the loop appends the records' hashes in table order |
| ContainerFormat.ReadEntriesFiles | trunk/LibZ.Bootstrap/LibZResolver.cs:867-872 | the loop keeps every existing entry and files each record under its own hash |
| ContainerFormat.OpenEntries | trunk/LibZ.Bootstrap/LibZResolver.cs:866-872 | an opened container holds exactly `count` entries read one after another from the metadata offset, in that order, each under its own hash, none repeated; a positive count fits the image at 41 bytes per record |
| ContainerFormat.DuplicateHashFails | trunk/LibZ.Bootstrap/LibZResolver.cs:870-871 | a table whose records repeat a hash makes the open fail |
| ContainerFormat.RecordsFit | trunk/LibZ.Bootstrap/LibZResolver.cs:867-872 | `count` records that all read take at least 41 bytes each of what remains |
| ContainerFormat.ReadPayload | trunk/LibZ.Bootstrap/LibZResolver.cs:964-972 | the payload read succeeds exactly for a non-negative offset and length that fit the image (or length 0); negative offset, negative length and short read each have their own error; the bytes are exactly `image[offset .. offset+length]` |
| ContainerFormat.GetBytesPayload | trunk/LibZ.Bootstrap/LibZResolver.cs:964-989 | a missing hash fails; a present one yields `Decode` of exactly `image[Offset .. Offset+StorageLength]`, and a payload past the end is "stream ended prematurely" |
| ContainerFormat.LengthsUnchecked | trunk/LibZ.Bootstrap/LibZResolver.cs:964-976 | an entry overlapping the metadata whose decoded length differs from `OriginalLength` still reads |
| ContainerFormat.IsManaged | trunk/LibZ.Bootstrap/LibZResolver.cs:1016 | an entry is managed exactly when its Unmanaged flag is clear; a missing hash is an error |
| ContainerFormat.AssemblyNames | trunk/LibZ.Bootstrap/LibZResolver.cs:1020-1023 | when every listed hash has an entry there is one name per entry, in the order entries were added |
| Reader.ReadBytes | trunk/LibZ.Bootstrap/LibZResolver.cs:1046-1052 | one read of `length` bytes: a negative length is an error; otherwise the position moves past what was read, and fewer bytes than asked is "stream ended prematurely" |
| Reader.LibZReader.constructor | trunk/LibZ.Bootstrap/LibZResolver.cs:830-835 | a new reader holds the stream, the empty GUID and an empty dictionary |
| Reader.LibZReader.ReadEntry | trunk/LibZ.Bootstrap/LibZResolver.cs:943-957 | reading a record through the stream yields exactly `EntryAt` at the old position and leaves the position after the record |
| Reader.LibZReader.ReadRecord | trunk/LibZ.Bootstrap/LibZResolver.cs:869 | one `ReadEntry` in the table loop yields exactly one application of the record reader at the old position and leaves the position after the record |
| Reader.LibZReader.ReadTable | trunk/LibZ.Bootstrap/LibZResolver.cs:867-872 | the counted loop ends in exactly the dictionary and order, or the error, that `ReadEntries` gives from the starting state |
| Reader.LibZReader.ReadHeader | trunk/LibZ.Bootstrap/LibZResolver.cs:853-860 | reading the header through the stream succeeds exactly when `Header` does, fails with its error, and then holds its container id and version |
| Reader.LibZReader.ReadFooter | trunk/LibZ.Bootstrap/LibZResolver.cs:861-866 | reading the footer and seeking to the metadata succeeds exactly when `Footer` does, fails with its error, and then holds the offset with the stream positioned there |
| Reader.LibZReader.OpenFile | trunk/LibZ.Bootstrap/LibZResolver.cs:849-875 | opening succeeds exactly when `Open` does, fails with the same error, and then holds exactly what `Open` returns |
| Reader.LibZReader.ReadData | trunk/LibZ.Bootstrap/LibZResolver.cs:964-976 | seeking, reading and decoding through the stream yields exactly `ReadData` on the image |
| Reader.LibZReader.GetBytes | trunk/LibZ.Bootstrap/LibZResolver.cs:986-989 | fetching through the reader yields exactly `GetBytes` on its container |
| Reader.NewReader | trunk/LibZ.Bootstrap/LibZResolver.cs:830-835 | a reader exists exactly for an image `Open` accepts and then holds what `Open` returns; otherwise the constructor throws `Open`'s error |
| Resolution.FirstLoadedIsFirst | trunk/LibZ.Bootstrap/LibZResolver.cs:524-527 | `Select(...).FirstOrDefault(a => a != null)` is non-null exactly when some attempt succeeds, and then it is the first successful attempt |
| Resolution.CachedImage | trunk/LibZ.Bootstrap/LibZResolver.cs:555-560 | the temp file is rewritten with the decoded bytes when absent or of another length; otherwise the existing file, of the same length, is kept |
| Resolution.TryLoadFromCases | trunk/LibZ.Bootstrap/LibZResolver.cs:534-569 | a missing or unreadable entry gives null; a managed entry loads its decoded bytes from memory; a native entry loads the temp file, holding the decoded bytes unless a same-length file was already there, which then loads unchanged |
| Resolution.TryLoadAssemblyFirstContainer | trunk/LibZ.Bootstrap/LibZResolver.cs:522-528 | a resource name loads exactly when some container loads its MD5 hash, and then from the first such container in registration order |
| Resolution.TryLoadAssemblyIgnoresCase | trunk/LibZ.Bootstrap/LibZResolver.cs:1261 | resource names equal but for case load the same way, since they are hashed lower-cased |
| Resolution.PlatformCandidates | trunk/LibZ.Bootstrap/LibZResolver.cs:508-517 | on a 4-byte host "x86:name" then the name; on an 8-byte host "x64:name", the name, then "x86:name" |
| Resolution.TryLoadAssembly3Order | trunk/LibZ.Bootstrap/LibZResolver.cs:508-517 | the `??` chain is the first hit over the platform candidates in that order |
| Resolution.BelowOrder | trunk/LibZ.Bootstrap/LibZResolver.cs:501 | version order (null lowest, then major, minor, build, revision) is a strict total order |
| Resolution.InsertPermutes | trunk/LibZ.Bootstrap/LibZResolver.cs:501 | inserting a name into the sorted prefix adds exactly that name |
| Resolution.InsertSorted | trunk/LibZ.Bootstrap/LibZResolver.cs:501 | inserting into a descending sequence keeps it descending |
| Resolution.InsertStable | trunk/LibZ.Bootstrap/LibZResolver.cs:501 | an inserted name comes after every name of its own version |
| Resolution.OrderByVersionPermutes | trunk/LibZ.Bootstrap/LibZResolver.cs:501 | the sort is a permutation of its input |
| Resolution.OrderByVersionSorted | trunk/LibZ.Bootstrap/LibZResolver.cs:501 | the sort's result is in descending version order |
| Resolution.OrderByVersionStable | trunk/LibZ.Bootstrap/LibZResolver.cs:501 | the sort is stable: names of equal version keep their input order |
| Resolution.NamedLike | trunk/LibZ.Bootstrap/LibZResolver.cs:498-499 | the filter keeps only names whose short name equals the request ignoring case, and keeps each of those exactly as often as it occurs |
| Resolution.NamedLikeAppend | trunk/LibZ.Bootstrap/LibZResolver.cs:498-499 | filtering keeps the input order: the filter of a concatenation is the concatenation of the filters |
| Resolution.NamedLikeContainers | trunk/LibZ.Bootstrap/LibZResolver.cs:497-499 | the matches of the first container come first, in its entry order, then those of the later containers |
| Resolution.NamedLikeComplete | trunk/LibZ.Bootstrap/LibZResolver.cs:498-499 | the filter keeps every name that matches |
| Resolution.MatchByShortName | trunk/LibZ.Bootstrap/LibZResolver.cs:502 | the result is the full name of each match, in the matches' order |
| Resolution.MatchesSpec | trunk/LibZ.Bootstrap/LibZResolver.cs:489-503 | the matches are exactly the names in all containers that equal the request ignoring case, each as often as it occurs there, in descending version order, equal versions in container-then-entry order |
| Resolution.ResolveOrder | trunk/LibZ.Bootstrap/LibZResolver.cs:469-477 | the exact name wins when it loads; otherwise the result is the first short-name match, in fallback order, that loads, and null if none does |
| Resolver.LibZResolver.constructor | trunk/LibZ.Bootstrap/LibZResolver.cs:236-266 | the resolver starts with no containers and a registry holding only the Deflate decoder, under the CRC of "deflate" |
| Resolver.LibZResolver.Register | trunk/LibZ.Bootstrap/LibZResolver.cs:254-256 | a reader whose id is already held leaves the list unchanged and yields the held reader of that id; otherwise it is appended and returned; ids stay distinct |
| Resolver.LibZResolver.RegisterStream | trunk/LibZ.Bootstrap/LibZResolver.cs:253-258 | a stream that does not open changes nothing and fails with `Open`'s error; a container whose id is already held leaves the list unchanged and returns the held reader; a new one is appended; container ids stay distinct |
| Resolver.LibZResolver.RegisterStreamContainer | trunk/LibZ.Bootstrap/LibZResolver.cs:279-293 | a null stream, or one that does not open, is an error when the container is required and the empty proxy when optional; otherwise it returns the registered (or already held) reader |

## Left out

- MEF plumbing is not modelled. This covers `LibZCatalog`, `ComposableCatalogProxy` and
  `NullComposableCatalog`: they wrap a foreign composition library. A proxy is modelled only
  as the reader it stands for, or as `None` for the empty proxy.
- Runtime loading is a host parameter that returns an optional assembly. This covers
  `Assembly.Load`, `Assembly.LoadFile` and the `AssemblyResolve` hook. `GlobalDictionary`
  and the `AppDomain` data slots are not modelled.
- The file system is not modelled. This covers `FindFile`, `RegisterFileContainer`,
  `RegisterMultipleFileContainers`, the resource-container registration, the search path,
  `Directory.CreateDirectory` and `File.WriteAllBytes`. The temp-file cache appears only as
  the existing file's contents (a host parameter) and the write rule. A failed write or
  directory creation is not modelled.
- `Hash.MD5` is an uninterpreted host function applied to the UTF-8 bytes of the lower-cased
  name.
- `DeflateDecoder` is an opaque decoder value. DEFLATE itself is not modelled.
- Parsing the entry's name string into an `AssemblyName`, together with its UTF-8 decoding, is
  a parameter of `Open`. A parser that throws is `None`.
- Locks (`lock(_stream)`, `lock(decoders)`, `lock(typeof(object))`) and the cross-copy
  ownership protocol (`SharedData.IsOwner`) exist for concurrency and are not modelled.
- `Dispose`, the finalizer, `Trace` logging and `Startup` carry no behaviour the model
  needs.
- Case mapping is for ASCII letters only. Full Unicode `ToLowerInvariant` and invariant-culture
  comparison are not modelled.
- Names are never null in the model: `resourceName ?? string.Empty` is the identity.
- A stream `Read` is assumed to return every byte available up to the length asked. A stream
  that returns fewer while more remain is not modelled.
- Binary.ByteStream.Next: a `BinaryReader` read that fails part-way leaves the position where it
  stopped. The model leaves it unchanged, because every failed read ends the operation
  (`OpenFile`, `ReadEntry`) anyway.
- Resolution.MatchByShortName: `Distinct()` is not modelled as a step. It compares
  `AssemblyName` objects by reference, and each entry of each distinct reader owns its own
  object, so it removes nothing. Equal full names are therefore kept once per occurrence.
- Reader.LibZReader.GetBytes: the reader's stream position after a fetch is left unspecified.
  Nothing reads it before the next seek.
- Resolver.LibZResolver.RegisterStream: the discarded reader for a duplicate id is not
  disposed in the source either. The model does not track stream ownership.
- Codecs.Decode: the source falls back to the reader's own static decoder table when it is given none. The model always passes a table, as the resolver does with its own registry, so this fallback is not modelled.
- `Resolve` is modelled over the values of the registered containers and the registry's
  table. The stream positions it moves while fetching payloads are left out.
