/**
 * `LibZReader` as the object it is: a stream with a shared position, the header fields and the
 * entry dictionary that `OpenFile` fills in a counted loop. Each method is proved to compute the
 * value-level definition in module `ContainerFormat`.
 */
module Reader {
  import opened Wrappers
  import opened Errors
  import opened Binary
  import opened Codecs
  import opened ContainerFormat

  /** `Guid.Empty`, the container id before the header is read. */
  const EmptyGuid: Guid := [0, 0, 0, 0, 0, 0, 0, 0, 0, 0, 0, 0, 0, 0, 0, 0]

  /**
   * `ReadBytes(stream, length)`: allocate `length` bytes and make one `Read`; fewer bytes than
   * asked is an error. The position moves past whatever was read.
   */
  method ReadBytes(stream: ByteStream, length: int) returns (r: Result<seq<byte>, Failure>)
    modifies stream
    ensures length < 0 ==> r == Err(NegativeLength(length)) && stream.position == old(stream.position)
    ensures 0 <= length ==>
      var b := Take(stream.data, old(stream.position), length);
      && stream.position == old(stream.position) + |b|
      && r == if |b| < length then Err(StreamEndedPrematurely) else Ok(b)
  {
    if length < 0 {
      return Err(NegativeLength(length));
    }
    var buffer := Take(stream.data, stream.position, length);
    stream.position := stream.position + |buffer|;
    if |buffer| < length {
      return Err(StreamEndedPrematurely);
    }
    r := Ok(buffer);
  }

  class LibZReader {
    const stream: ByteStream
    var containerId: Guid
    var version: int
    var magicOffset: int
    var entries: map<Guid, Entry>
    /** The order entries were added in, which is the order the dictionary enumerates them. */
    var order: seq<Guid>

    /** What the reader holds, as a value. */
    function Snapshot(): Container
      reads this
    {
      Container(containerId, version, magicOffset, entries, order, stream.data)
    }

    /** The field initialisers; `OpenFile` runs next. */
    constructor (stream: ByteStream)
      ensures this.stream == stream
      ensures containerId == EmptyGuid && version == 0 && magicOffset == 0
      ensures entries == map[] && order == []
    {
      this.stream := stream;
      containerId := EmptyGuid;
      version := 0;
      magicOffset := 0;
      entries := map[];
      order := [];
    }

    /** `ReadEntry`: one record at the current position; the position ends after it. */
    method ReadEntry(parse: NameParser) returns (r: Result<Entry, Failure>)
      modifies stream
      ensures r == ValueOf(EntryAt(stream.data, old(stream.position), parse))
      ensures r.Ok? ==> stream.position == EntryAt(stream.data, old(stream.position), parse).value.next
    {
      var hash := stream.Next(GuidAt(stream.data, stream.position));
      if hash.Err? {
        return Err(hash.error);
      }
      var text := stream.Next(StringAt(stream.data, stream.position));
      if text.Err? {
        return Err(text.error);
      }
      var name := parse(text.value);
      if name.None? {
        return Err(InvalidAssemblyName);
      }
      var flags := stream.Next(UInt32At(stream.data, stream.position));
      if flags.Err? {
        return Err(flags.error);
      }
      var offset := stream.Next(Int64At(stream.data, stream.position));
      if offset.Err? {
        return Err(offset.error);
      }
      var originalLength := stream.Next(Int32At(stream.data, stream.position));
      if originalLength.Err? {
        return Err(originalLength.error);
      }
      var storageLength := stream.Next(Int32At(stream.data, stream.position));
      if storageLength.Err? {
        return Err(storageLength.error);
      }
      var codecId := stream.Next(UInt32At(stream.data, stream.position));
      if codecId.Err? {
        return Err(codecId.error);
      }
      r := Ok(Entry(hash.value, name.value, flags.value, offset.value, originalLength.value,
                    storageLength.value, codecId.value));
    }

    /** `ReadEntry` as the table loop sees it: one application of the record reader. */
    method ReadRecord(parse: NameParser, ghost read: RecordReader) returns (r: Result<Entry, Failure>)
      requires ReadsRecordsOf(read, stream.data, parse)
      modifies stream
      ensures r == ValueOf(read(old(stream.position)))
      ensures r.Ok? ==> stream.position == read(old(stream.position)).value.next
    {
      r := ReadEntry(parse);
    }

    /**
     * The `for` loop of `OpenFile`: `count` records, each added with `Dictionary.Add`. It
     * finishes what `ReadEntries` describes from the current position and dictionary.
     */
    method ReadTable(count: int, parse: NameParser, ghost read: RecordReader) returns (r: Result<(), Failure>)
      requires ReadsRecordsOf(read, stream.data, parse)
      modifies this, stream
      ensures var table := ReadEntries(read, old(stream.position), count, old(entries), old(order));
        && (r.Ok? <==> table.Ok?)
        && (r.Err? ==> r.error == table.error)
        && (r.Ok? ==> entries == table.value.0 && order == table.value.1)
      ensures containerId == old(containerId) && version == old(version)
      ensures magicOffset == old(magicOffset)
    {
      ghost var table := ReadEntries(read, stream.position, count, entries, order);
      var i := 0;
      while i < count
        invariant 0 <= i && (0 < count ==> i <= count)
        invariant containerId == old(containerId) && version == old(version)
        invariant magicOffset == old(magicOffset)
        invariant ReadEntries(read, stream.position, count - i, entries, order) == table
        decreases count - i
      {
        ghost var pos := stream.position;
        var entry := ReadRecord(parse, read);
        ReadEntriesStep(read, pos, count - i, entries, order, entry, stream.position);
        if entry.Err? {
          return Err(entry.error);
        }
        if entry.value.hash in entries {
          return Err(DuplicateEntry(entry.value.hash));
        }
        entries := entries[entry.value.hash := entry.value];
        order := order + [entry.value.hash];
        i := i + 1;
      }
      r := Ok(());
    }

    /** The header part of `OpenFile`: from position 0, the magic, the container id, the version. */
    method ReadHeader() returns (r: Result<(), Failure>)
      modifies this, stream
      ensures r.Ok? <==> Header(stream.data).Ok?
      ensures r.Err? ==> r.error == Header(stream.data).error
      ensures r.Ok? ==> (containerId, version) == Header(stream.data).value
      ensures magicOffset == old(magicOffset) && entries == old(entries) && order == old(order)
    {
      var _ := stream.Seek(0);
      var header := stream.Next(GuidAt(stream.data, stream.position));
      if header.Err? {
        return Err(header.error);
      }
      if header.value != Magic {
        return Err(InvalidHeader);
      }
      var id := stream.Next(GuidAt(stream.data, stream.position));
      if id.Err? {
        return Err(id.error);
      }
      containerId := id.value;
      var v := stream.Next(Int32At(stream.data, stream.position));
      if v.Err? {
        return Err(v.error);
      }
      version := v.value;
      if version != CurrentVersion {
        return Err(UnsupportedVersion(version));
      }
      r := Ok(());
    }

    /**
     * The footer part of `OpenFile`: the metadata offset and the magic at the end of the stream,
     * then the seek to the offset.
     */
    method ReadFooter() returns (r: Result<(), Failure>)
      requires 24 <= |stream.data|
      modifies this, stream
      ensures r.Ok? <==> Footer(stream.data).Ok?
      ensures r.Err? ==> r.error == Footer(stream.data).error
      ensures r.Ok? ==> magicOffset == Footer(stream.data).value && stream.position == magicOffset
      ensures containerId == old(containerId) && version == old(version)
      ensures entries == old(entries) && order == old(order)
    {
      ghost var offsetRead := Int64At(stream.data, |stream.data| - 24).value;
      ghost var magicRead := GuidAt(stream.data, |stream.data| - 16).value;
      var _ := stream.Seek(|stream.data| - 24);
      var offset := stream.Next(Int64At(stream.data, stream.position));
      assert offset == Ok(offsetRead.value) && stream.position == offsetRead.next;
      magicOffset := offset.value;
      var footer := stream.Next(GuidAt(stream.data, stream.position));
      assert footer == Ok(magicRead.value);
      if footer.value != Magic {
        return Err(InvalidFooter);
      }
      r := stream.Seek(magicOffset);
    }

    /**
     * `OpenFile`: header, footer, then the table. It succeeds exactly when `Open` does, failing
     * with the same error, and then holds what `Open` returns.
     */
    method OpenFile(parse: NameParser) returns (r: Result<(), Failure>)
      requires entries == map[] && order == []
      modifies this, stream
      ensures r.Ok? <==> Open(stream.data, parse).Ok?
      ensures r.Err? ==> r.error == Open(stream.data, parse).error
      ensures r.Ok? ==> Snapshot() == Open(stream.data, parse).value
    {
      var header := ReadHeader();
      if header.Err? {
        return Err(header.error);
      }
      var footer := ReadFooter();
      if footer.Err? {
        return Err(footer.error);
      }
      var count := stream.Next(Int32At(stream.data, stream.position));
      if count.Err? {
        return Err(count.error);
      }
      EntryReaderReads(stream.data, parse);
      r := ReadTable(count.value, parse, EntryReader(stream.data, parse));
    }

    /** `ReadData(entry, decoders)`: seek to the payload, read it, decode it. */
    method ReadData(entry: Entry, decoders: DecoderTable) returns (r: Result<seq<byte>, Failure>)
      modifies stream
      ensures r == ContainerFormat.ReadData(stream.data, entry, decoders)
    {
      var seek := stream.Seek(entry.offset);
      if seek.Err? {
        return Err(seek.error);
      }
      var buffer := ReadBytes(stream, entry.storageLength);
      if buffer.Err? {
        return Err(buffer.error);
      }
      r := Decode(entry.codecId, buffer.value, entry.originalLength, decoders);
    }

    /** `GetBytes(hash, decoders)`. */
    method GetBytes(hash: Guid, decoders: DecoderTable) returns (r: Result<seq<byte>, Failure>)
      modifies stream
      ensures r == ContainerFormat.GetBytes(Snapshot(), hash, decoders)
    {
      if hash !in entries {
        return Err(EntryNotFound(hash));
      }
      r := ReadData(entries[hash], decoders);
    }
  }

  /**
   * `new LibZReader(stream)`: the constructor runs `OpenFile`, so a reader exists only for an
   * image `Open` accepts, and it then holds exactly what `Open` returns.
   */
  method NewReader(stream: ByteStream, parse: NameParser) returns (r: Result<LibZReader, Failure>)
    modifies stream
    ensures r.Ok? <==> Open(stream.data, parse).Ok?
    ensures r.Err? ==> r.error == Open(stream.data, parse).error
    ensures r.Ok? ==> fresh(r.value) && r.value.stream == stream
    ensures r.Ok? ==> r.value.Snapshot() == Open(stream.data, parse).value
  {
    var reader := new LibZReader(stream);
    var status := reader.OpenFile(parse);
    if status.Err? {
      return Err(status.error);
    }
    r := Ok(reader);
  }
}
