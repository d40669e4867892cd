/**
 * The LibZ container image and what `LibZReader` makes of it, stated on values: the header
 * (magic, container id, version 103), the footer (metadata offset, magic again), the
 * count-prefixed entry table, and the payload fetch that hands an entry's stored bytes to the
 * decoder registry. The `LibZReader` class in module `Reader` is proved to compute exactly these
 * functions while it moves its stream position.
 */
module ContainerFormat {
  import opened Wrappers
  import opened Errors
  import opened Binary
  import opened Codecs

  /** `CurrentVersion`: the only container format version the reader accepts. */
  const CurrentVersion: int := 103

  /** `EntryFlags.Unmanaged`: the entry holds a native (unmanaged) library. */
  const Unmanaged: bv32 := 0x01

  /** `System.Version`; a component that was not given is -1. */
  datatype Version = Version(major: int, minor: int, build: int, revision: int)

  /** The parts of a `System.Reflection.AssemblyName` the resolver looks at. */
  datatype AssemblyName = AssemblyName(name: string, version: Option<Version>, fullName: string)

  /**
   * `new AssemblyName(s)` applied to the UTF-8 bytes `ReadString` returns: decoding and display-name
   * parsing are not modelled, so they come in as this function (`None` when the constructor throws).
   */
  type NameParser = seq<byte> -> Option<AssemblyName>

  /** One record of the entry table (`LibZReader.Entry`). */
  datatype Entry = Entry(
    hash: Guid,
    assemblyName: AssemblyName,
    flags: bv32,
    offset: int,
    originalLength: int,
    storageLength: int,
    codecId: bv32)

  /**
   * An opened container: its id and version, the metadata offset, the entry dictionary with the
   * order entries were added in (the order `GetAssemblyNames` yields them), and the image itself.
   */
  datatype Container = Container(
    containerId: Guid,
    version: int,
    magicOffset: int,
    entries: map<Guid, Entry>,
    order: seq<Guid>,
    image: seq<byte>)

  /** The fewest bytes one record can take: hash, a one-byte name length, and 24 bytes of fields. */
  const MinRecordLength: nat := 16 + 1 + 4 + 8 + 4 + 4 + 4

  /** `ReadEntry` at `pos`: the fields in the order the object initializer reads them. */
  function EntryAt(data: seq<byte>, pos: nat, parse: NameParser): (r: Result<Read<Entry>, Failure>)
    ensures r.Ok? ==> pos + MinRecordLength <= r.value.next <= |data|
    ensures r.Ok? ==> r.value.value.hash == data[pos..pos + 16]
  {
    var hash :- GuidAt(data, pos);
    var text :- StringAt(data, hash.next);
    var name :- if parse(text.value).Some? then Ok(parse(text.value).value) else Err(InvalidAssemblyName);
    var flags :- UInt32At(data, text.next);
    var offset :- Int64At(data, flags.next);
    var originalLength :- Int32At(data, offset.next);
    var storageLength :- Int32At(data, originalLength.next);
    var codecId :- UInt32At(data, storageLength.next);
    Ok(Read(Entry(hash.value, name, flags.value, offset.value, originalLength.value,
                  storageLength.value, codecId.value), codecId.next))
  }

  /**
   * The record layout: the 16-byte hash, the length-prefixed name right after it, then flags
   * (UInt32), offset (Int64), original and stored lengths (Int32 each) and codec id (UInt32),
   * 24 bytes in all, little-endian; the record ends after the codec id. The read fails exactly
   * when one of the fields runs past the image or the name does not parse, with the first
   * failure's error.
   */
  lemma EntryLayout(data: seq<byte>, pos: nat, parse: NameParser)
    ensures var s := StringAt(data, pos + 16);
      EntryAt(data, pos, parse).Ok? <==>
        && pos + 16 <= |data|
        && s.Ok?
        && parse(s.value.value).Some?
        && s.value.next + 24 <= |data|
    ensures pos + 16 > |data| ==> EntryAt(data, pos, parse) == Err(BadGuidLength)
    ensures var s := StringAt(data, pos + 16);
      pos + 16 <= |data| && s.Err? ==> EntryAt(data, pos, parse) == Err(s.error)
    ensures var s := StringAt(data, pos + 16);
      pos + 16 <= |data| && s.Ok? && parse(s.value.value).None? ==>
        EntryAt(data, pos, parse) == Err(InvalidAssemblyName)
    ensures var s := StringAt(data, pos + 16);
      pos + 16 <= |data| && s.Ok? && parse(s.value.value).Some? && |data| < s.value.next + 24 ==>
        EntryAt(data, pos, parse) == Err(EndOfStream)
    ensures EntryAt(data, pos, parse).Ok? ==>
      var s := StringAt(data, pos + 16).value;
      var e := EntryAt(data, pos, parse).value;
      && e.next == s.next + 24
      && e.value.hash == data[pos..pos + 16]
      && e.value.assemblyName == parse(s.value).value
      && e.value.flags == UInt32At(data, s.next).value.value
      && e.value.offset == Int64At(data, s.next + 4).value.value
      && e.value.originalLength == Int32At(data, s.next + 12).value.value
      && e.value.storageLength == Int32At(data, s.next + 16).value.value
      && e.value.codecId == UInt32At(data, s.next + 20).value.value
  {
    if pos + 16 <= |data| {
      assert GuidAt(data, pos).Ok? && GuidAt(data, pos).value.next == pos + 16;
      var s := StringAt(data, pos + 16);
      if s.Ok? && parse(s.value.value).Some? {
        var n := s.value.next;
        if n + 24 <= |data| {
          assert UInt32At(data, n).value.next == n + 4;
          assert Int64At(data, n + 4).value.next == n + 12;
          assert Int32At(data, n + 12).value.next == n + 16;
          assert Int32At(data, n + 16).value.next == n + 20;
          assert UInt32At(data, n + 20).value.next == n + 24;
        } else if n + 4 > |data| {
          assert UInt32At(data, n).Err?;
        } else if n + 12 > |data| {
          assert Int64At(data, n + 4).Err?;
        } else if n + 16 > |data| {
          assert Int32At(data, n + 12).Err?;
        } else if n + 20 > |data| {
          assert Int32At(data, n + 16).Err?;
        } else {
          assert UInt32At(data, n + 20).Err?;
        }
      }
    }
  }

  /** Reads one record at a position; the table functions below take the reader as a value. */
  type RecordReader = nat -> Result<Read<Entry>, Failure>

  /** `ReadEntry` on the image `data`. */
  function EntryReader(data: seq<byte>, parse: NameParser): RecordReader {
    (pos: nat) => EntryAt(data, pos, parse)
  }

  /** Every record `read` returns lies after its position, takes `MinRecordLength` bytes or more, and ends by `limit`. */
  ghost predicate ReadsWithin(read: RecordReader, limit: nat) {
    forall pos: nat :: read(pos).Ok? ==> pos + MinRecordLength <= read(pos).value.next <= limit
  }

  /**
   * `read` reads the records of `data` as `EntryAt` does. The quantifier only fires where
   * `EntryAt` itself is mentioned, so a proof that only passes `read` along never unfolds it.
   */
  ghost predicate ReadsRecordsOf(read: RecordReader, data: seq<byte>, parse: NameParser) {
    forall pos: nat {:trigger EntryAt(data, pos, parse)} :: read(pos) == EntryAt(data, pos, parse)
  }

  lemma EntryReaderReads(data: seq<byte>, parse: NameParser)
    ensures ReadsRecordsOf(EntryReader(data, parse), data, parse)
  {
  }

  lemma EntryReaderWithin(data: seq<byte>, parse: NameParser)
    ensures ReadsWithin(EntryReader(data, parse), |data|)
  {
  }

  /**
   * The reference reading of the table: `remaining` records one after another, nothing indexed
   * (a count of zero or less reads none).
   */
  function Records(read: RecordReader, pos: nat, remaining: int)
    : (r: Result<seq<Entry>, Failure>)
    ensures r.Ok? ==> |r.value| == if remaining <= 0 then 0 else remaining
    decreases remaining
  {
    if remaining <= 0 then Ok([])
    else
      var e :- read(pos);
      var rest :- Records(read, e.next, remaining - 1);
      Ok([e.value] + rest)
  }

  function Hashes(records: seq<Entry>): (r: seq<Guid>)
    ensures |r| == |records|
  {
    seq(|records|, i requires 0 <= i < |records| => records[i].hash)
  }

  predicate Distinct<T(==)>(s: seq<T>) {
    forall i, j :: 0 <= i < j < |s| ==> s[i] != s[j]
  }

  /** The dictionary holds exactly the hashes of `order`, once each, each under its own hash. */
  ghost predicate Indexed(entries: map<Guid, Entry>, order: seq<Guid>) {
    && (forall h :: h in entries <==> h in order)
    && Distinct(order)
    && (forall h :: h in entries ==> entries[h].hash == h)
  }

  /** Appending an element not yet present keeps a sequence free of repeats. */
  lemma DistinctAppend<T>(s: seq<T>, x: T)
    requires Distinct(s) && x !in s
    ensures Distinct(s + [x])
  {
  }

  /** Adding a record under a new hash keeps the dictionary indexed by the extended order. */
  lemma IndexedAdd(entries: map<Guid, Entry>, order: seq<Guid>, entry: Entry)
    requires Indexed(entries, order) && entry.hash !in entries
    ensures Indexed(entries[entry.hash := entry], order + [entry.hash])
  {
    DistinctAppend(order, entry.hash);
  }

  /**
   * The `for` loop of `OpenFile`: `remaining` more records, each added to the dictionary with
   * `Dictionary.Add`, which throws on a hash already present.
   */
  function ReadEntries(read: RecordReader, pos: nat, remaining: int,
                       entries: map<Guid, Entry>, order: seq<Guid>)
    : (r: Result<(map<Guid, Entry>, seq<Guid>), Failure>)
    decreases remaining
  {
    if remaining <= 0 then Ok((entries, order))
    else
      var e :- read(pos);
      var hash := e.value.hash;
      if hash in entries then Err(DuplicateEntry(hash))
      else ReadEntries(read, e.next, remaining - 1, entries[hash := e.value], order + [hash])
  }

  /**
   * One turn of the table loop, given what reading the next record gave (`entry`) and where
   * it ended (`next`).
   */
  lemma ReadEntriesStep(read: RecordReader, pos: nat, remaining: int,
                        entries: map<Guid, Entry>, order: seq<Guid>,
                        entry: Result<Entry, Failure>, next: nat)
    requires remaining > 0
    requires entry == ValueOf(read(pos))
    requires entry.Ok? ==> next == read(pos).value.next
    ensures entry.Err? ==> ReadEntries(read, pos, remaining, entries, order) == Err(entry.error)
    ensures entry.Ok? && entry.value.hash in entries ==>
      ReadEntries(read, pos, remaining, entries, order) == Err(DuplicateEntry(entry.value.hash))
    ensures entry.Ok? && entry.value.hash !in entries ==>
      ReadEntries(read, pos, remaining, entries, order)
        == ReadEntries(read, next, remaining - 1, entries[entry.value.hash := entry.value],
                       order + [entry.value.hash])
  {
  }

  /**
   * The header: the magic in the first 16 bytes, then the container id and the format version,
   * which must be the current one. It yields the id and the version.
   */
  function Header(data: seq<byte>): (r: Result<(Guid, int), Failure>)
    ensures r.Ok? ==> 36 <= |data| && r.value.1 == CurrentVersion
  {
    var header :- GuidAt(data, 0);
    if header.value != Magic then Err(InvalidHeader)
    else
      var containerId :- GuidAt(data, 16);
      var version :- Int32At(data, 32);
      if version.value != CurrentVersion then Err(UnsupportedVersion(version.value))
      else Ok((containerId.value, version.value))
  }

  /**
   * The footer: the int64 metadata offset at `Length - 24`, then the magic in the last 16 bytes.
   * Once the header has been read both reads succeed; a negative offset fails the seek to it.
   */
  function Footer(data: seq<byte>): (r: Result<int, Failure>)
    requires 24 <= |data|
    ensures r.Ok? ==> 0 <= r.value
  {
    var magicOffset := Int64At(data, |data| - 24).value;
    var footer := GuidAt(data, magicOffset.next).value;
    if footer.value != Magic then Err(InvalidFooter)
    else if magicOffset.value < 0 then Err(NegativePosition(magicOffset.value))
    else Ok(magicOffset.value)
  }

  /**
   * `OpenFile`. The header is read from position 0; the footer from 24 bytes before the end (the
   * header guarantees 36 bytes, so that position is never negative); then the count and the
   * table from the metadata offset the footer names.
   */
  function Open(data: seq<byte>, parse: NameParser): (r: Result<Container, Failure>)
    ensures r.Ok? ==> r.value.image == data && 0 <= r.value.magicOffset
  {
    var header :- Header(data);
    var magicOffset :- Footer(data);
    var count :- Int32At(data, magicOffset);
    var table :- ReadEntries(EntryReader(data, parse), count.next, count.value, map[], []);
    Ok(Container(header.0, header.1, magicOffset, table.0, table.1, data))
  }

  /** The header: magic at [0, 16), version 103 at [32, 36), container id from [16, 32). */
  lemma OpenHeader(data: seq<byte>, parse: NameParser)
    ensures |data| < 16 ==> Open(data, parse) == Err(BadGuidLength)
    ensures 16 <= |data| && data[..16] != Magic ==> Open(data, parse) == Err(InvalidHeader)
    ensures 36 <= |data| && data[..16] == Magic && Int32At(data, 32).value.value != CurrentVersion ==>
      Open(data, parse) == Err(UnsupportedVersion(Int32At(data, 32).value.value))
    ensures Open(data, parse).Ok? ==>
      && 36 <= |data|
      && data[..16] == Magic
      && Int32At(data, 32) == Ok(Read(CurrentVersion, 36))
      && Open(data, parse).value.containerId == data[16..32]
      && Open(data, parse).value.version == CurrentVersion
  {
    if 16 <= |data| {
      assert data[0..16] == data[..16];
    }
  }

  /** The footer: an int64 metadata offset at `Length - 24` followed by the magic in the last 16 bytes. */
  lemma OpenFooter(data: seq<byte>, parse: NameParser)
    ensures (&& 36 <= |data| && data[..16] == Magic
             && Int32At(data, 32).value.value == CurrentVersion
             && data[|data| - 16..] != Magic) ==>
      Open(data, parse) == Err(InvalidFooter)
    ensures Open(data, parse).Ok? ==>
      && data[|data| - 16..] == Magic
      && Int64At(data, |data| - 24).Ok?
      && Open(data, parse).value.magicOffset == Int64At(data, |data| - 24).value.value
      && 0 <= Open(data, parse).value.magicOffset
  {
    if 16 <= |data| {
      assert data[0..16] == data[..16];
    }
    if 36 <= |data| {
      assert data[|data| - 16..|data|] == data[|data| - 16..];
    }
  }

  /**
   * The table against the reference reading: from a dictionary indexed by `order`, the loop
   * succeeds exactly when every record reads and no hash repeats, among the records or with a
   * hash already held.
   */
  lemma {:induction false} ReadEntriesSucceeds(read: RecordReader, pos: nat, remaining: int,
                                               entries: map<Guid, Entry>, order: seq<Guid>)
    requires Indexed(entries, order)
    ensures ReadEntries(read, pos, remaining, entries, order).Ok? <==>
      && Records(read, pos, remaining).Ok?
      && Distinct(order + Hashes(Records(read, pos, remaining).value))
    decreases remaining
  {
    if remaining > 0 {
      var e := read(pos);
      if e.Ok? {
        var hash := e.value.value.hash;
        var rest := Records(read, e.value.next, remaining - 1);
        if hash in entries {
          if rest.Ok? {
            var all := order + Hashes([e.value.value] + rest.value);
            var k :| 0 <= k < |order| && order[k] == hash;
            assert all[k] == hash && all[|order|] == hash;
          }
        } else {
          var order' := order + [hash];
          ReadEntriesSucceeds(read, e.value.next, remaining - 1, entries[hash := e.value.value], order');
          if rest.Ok? {
            assert order + Hashes([e.value.value] + rest.value) == order' + Hashes(rest.value);
          }
        }
      }
    }
  }

  /** On success the loop has appended the records' hashes, in table order. */
  lemma {:induction false} ReadEntriesOrder(read: RecordReader, pos: nat, remaining: int,
                                            entries: map<Guid, Entry>, order: seq<Guid>)
    requires ReadEntries(read, pos, remaining, entries, order).Ok?
    ensures Records(read, pos, remaining).Ok?
    ensures ReadEntries(read, pos, remaining, entries, order).value.1
      == order + Hashes(Records(read, pos, remaining).value)
    decreases remaining
  {
    if remaining > 0 {
      var e := read(pos);
      var hash := e.value.value.hash;
      var order' := order + [hash];
      ReadEntriesOrder(read, e.value.next, remaining - 1, entries[hash := e.value.value], order');
      var rest := Records(read, e.value.next, remaining - 1);
      assert order + Hashes([e.value.value] + rest.value) == order' + Hashes(rest.value);
    } else {
      assert order + [] == order;
    }
  }

  /**
   * On success the dictionary is still indexed by the order, keeps every entry it held, and
   * files each record under its hash.
   */
  lemma {:induction false} ReadEntriesFiles(read: RecordReader, pos: nat, remaining: int,
                                            entries: map<Guid, Entry>, order: seq<Guid>)
    requires Indexed(entries, order)
    requires ReadEntries(read, pos, remaining, entries, order).Ok?
    ensures Records(read, pos, remaining).Ok?
    ensures var result := ReadEntries(read, pos, remaining, entries, order).value;
      var recs := Records(read, pos, remaining).value;
      && Indexed(result.0, result.1)
      && (forall h :: h in entries ==> h in result.0 && result.0[h] == entries[h])
      && (forall i :: 0 <= i < |recs| ==> recs[i].hash in result.0 && result.0[recs[i].hash] == recs[i])
    decreases remaining
  {
    if remaining > 0 {
      var e := read(pos);
      var hash := e.value.value.hash;
      var entries' := entries[hash := e.value.value];
      var order' := order + [hash];
      IndexedAdd(entries, order, e.value.value);
      ReadEntriesFiles(read, e.value.next, remaining - 1, entries', order');
      var rest := Records(read, e.value.next, remaining - 1).value;
      var recs := [e.value.value] + rest;
      var result := ReadEntries(read, pos, remaining, entries, order).value;
      forall i | 0 <= i < |recs|
        ensures recs[i].hash in result.0 && result.0[recs[i].hash] == recs[i]
      {
        if i > 0 {
          assert recs[i] == rest[i - 1];
        }
      }
    }
  }

  /** What `Open` keeps from the table loop. */
  lemma OpenTable(data: seq<byte>, parse: NameParser)
    requires Open(data, parse).Ok?
    ensures var c := Open(data, parse).value;
      && 0 <= c.magicOffset
      && Int32At(data, c.magicOffset).Ok?
      && Int32At(data, c.magicOffset).value.next == c.magicOffset + 4
      && ReadEntries(EntryReader(data, parse), c.magicOffset + 4,
                     Int32At(data, c.magicOffset).value.value, map[], [])
        == Ok((c.entries, c.order))
  {
  }

  /**
   * A table loop that succeeded from an empty dictionary: exactly `count` records (none for a
   * count of zero or less), read one after another, in that order, each filed under its own
   * hash, none repeated.
   */
  lemma TableContents(read: RecordReader, pos: nat, count: int,
                      entries: map<Guid, Entry>, order: seq<Guid>)
    requires ReadEntries(read, pos, count, map[], []) == Ok((entries, order))
    ensures var recs := Records(read, pos, count);
      && recs.Ok?
      && |order| == (if count < 0 then 0 else count)
      && order == Hashes(recs.value)
      && Indexed(entries, order)
      && (forall i :: 0 <= i < |recs.value| ==>
            recs.value[i].hash in entries && entries[recs.value[i].hash] == recs.value[i])
  {
    ReadEntriesOrder(read, pos, count, map[], []);
    ReadEntriesFiles(read, pos, count, map[], []);
    var hs := Hashes(Records(read, pos, count).value);
    assert [] + hs == hs;
  }

  /**
   * Open yields exactly `count` entries (the int32 at the metadata offset), read one after
   * another, in that order, each under its own hash, none repeated; each takes at least
   * `MinRecordLength` bytes of the image.
   */
  lemma OpenEntries(data: seq<byte>, parse: NameParser)
    requires Open(data, parse).Ok?
    ensures var c := Open(data, parse).value;
      var count := Int32At(data, c.magicOffset);
      var recs := Records(EntryReader(data, parse), c.magicOffset + 4, count.value.value);
      && count.Ok? && recs.Ok?
      && (count.value.value > 0 ==> c.magicOffset + 4 + count.value.value * MinRecordLength <= |data|)
      && |c.order| == (if count.value.value < 0 then 0 else count.value.value)
      && c.order == Hashes(recs.value)
      && Indexed(c.entries, c.order)
      && (forall i :: 0 <= i < |recs.value| ==>
            recs.value[i].hash in c.entries && c.entries[recs.value[i].hash] == recs.value[i])
  {
    var c := Open(data, parse).value;
    OpenTable(data, parse);
    var count := Int32At(data, c.magicOffset).value.value;
    var read := EntryReader(data, parse);
    assert ReadEntries(read, c.magicOffset + 4, count, map[], []) == Ok((c.entries, c.order));
    TableContents(read, c.magicOffset + 4, count, c.entries, c.order);
    assert Records(read, c.magicOffset + 4, count).Ok?;
    if count > 0 {
      EntryReaderWithin(data, parse);
      RecordsFit(read, |data|, c.magicOffset + 4, count);
    }
  }

  /** A table whose records all read but repeat a hash makes the whole open fail. */
  lemma DuplicateHashFails(read: RecordReader, pos: nat, remaining: int, i: nat, j: nat)
    requires Records(read, pos, remaining).Ok?
    requires i < j < |Records(read, pos, remaining).value|
    requires Records(read, pos, remaining).value[i].hash
      == Records(read, pos, remaining).value[j].hash
    ensures ReadEntries(read, pos, remaining, map[], []).Err?
  {
    ReadEntriesSucceeds(read, pos, remaining, map[], []);
    var hs := Hashes(Records(read, pos, remaining).value);
    assert [] + hs == hs;
    assert hs[i] == hs[j];
  }

  /** Every record takes at least `MinRecordLength` bytes, so the count is bounded by the image. */
  lemma {:induction false} RecordsFit(read: RecordReader, limit: nat, pos: nat, remaining: int)
    requires ReadsWithin(read, limit)
    requires Records(read, pos, remaining).Ok?
    requires remaining > 0
    ensures pos + remaining * MinRecordLength <= limit
    decreases remaining
  {
    var e := read(pos);
    if remaining > 1 {
      RecordsFit(read, limit, e.value.next, remaining - 1);
    }
  }

  /**
   * `ReadData` up to decoding: the position is set to the entry's offset, then `ReadBytes`
   * allocates `length` bytes and makes a single `Read`, failing if fewer come back.
   */
  function ReadPayload(data: seq<byte>, offset: int, length: int): (r: Result<seq<byte>, Failure>)
    ensures r.Ok? <==> 0 <= offset && 0 <= length && (length == 0 || offset + length <= |data|)
    ensures offset < 0 ==> r == Err(NegativePosition(offset))
    ensures 0 <= offset && length < 0 ==> r == Err(NegativeLength(length))
    ensures 0 <= offset && 0 < length && |data| < offset + length ==> r == Err(StreamEndedPrematurely)
    ensures r.Ok? ==> |r.value| == length
    ensures r.Ok? && 0 < length ==> r.value == data[offset..offset + length]
  {
    if offset < 0 then Err(NegativePosition(offset))
    else if length < 0 then Err(NegativeLength(length))
    else
      var buffer := Take(data, offset, length);
      if |buffer| < length then Err(StreamEndedPrematurely) else Ok(buffer)
  }

  /** `ReadData(entry, decoders)`: the entry's stored bytes, decoded by its codec. */
  function ReadData(data: seq<byte>, e: Entry, decoders: DecoderTable): Result<seq<byte>, Failure> {
    var buffer :- ReadPayload(data, e.offset, e.storageLength);
    Decode(e.codecId, buffer, e.originalLength, decoders)
  }

  /** `GetBytes(hash, decoders)`: `_entries[hash]` throws on a missing hash. */
  function GetBytes(c: Container, hash: Guid, decoders: DecoderTable): Result<seq<byte>, Failure> {
    if hash !in c.entries then Err(EntryNotFound(hash))
    else ReadData(c.image, c.entries[hash], decoders)
  }

  /**
   * A missing hash fails; a present one yields the decoder's output on exactly
   * `image[Offset .. Offset + StorageLength]`, and a payload running past the image fails.
   */
  lemma GetBytesPayload(c: Container, hash: Guid, decoders: DecoderTable)
    ensures hash !in c.entries ==> GetBytes(c, hash, decoders) == Err(EntryNotFound(hash))
    ensures (&& hash in c.entries && 0 <= c.entries[hash].offset
             && 0 < c.entries[hash].storageLength
             && c.entries[hash].offset + c.entries[hash].storageLength <= |c.image|) ==>
      var e := c.entries[hash];
      GetBytes(c, hash, decoders)
        == Decode(e.codecId, c.image[e.offset..e.offset + e.storageLength], e.originalLength, decoders)
    ensures (&& hash in c.entries && 0 <= c.entries[hash].offset
             && 0 < c.entries[hash].storageLength
             && |c.image| < c.entries[hash].offset + c.entries[hash].storageLength) ==>
      GetBytes(c, hash, decoders) == Err(StreamEndedPrematurely)
  {
  }

  /**
   * Neither the payload's place nor the decoded length is checked: a stored (codec 0) entry
   * whose bytes overlap the metadata and whose original length disagrees still reads.
   */
  lemma LengthsUnchecked(c: Container, hash: Guid, decoders: DecoderTable)
    requires hash in c.entries
    requires c.entries[hash].codecId == 0
    requires c.entries[hash].originalLength != c.entries[hash].storageLength
    requires 0 <= c.magicOffset <= c.entries[hash].offset
    requires 0 < c.entries[hash].storageLength
    requires c.entries[hash].offset + c.entries[hash].storageLength <= |c.image|
    ensures GetBytes(c, hash, decoders).Ok?
    ensures |GetBytes(c, hash, decoders).value| != c.entries[hash].originalLength
  {
  }

  /** `HasEntry(hash)`. */
  predicate HasEntry(c: Container, hash: Guid) {
    hash in c.entries
  }

  /** `IsManaged(hash)`: the Unmanaged flag is clear; a missing hash throws. */
  function IsManaged(c: Container, hash: Guid): (r: Result<bool, Failure>)
    ensures r.Ok? <==> HasEntry(c, hash)
    ensures !HasEntry(c, hash) ==> r == Err(EntryNotFound(hash))
    ensures r.Ok? ==> (r.value <==> c.entries[hash].flags & Unmanaged == 0)
  {
    if hash !in c.entries then Err(EntryNotFound(hash))
    else Ok(c.entries[hash].flags & Unmanaged == 0)
  }

  /**
   * `GetAssemblyNames`: the name of each entry, in the order the entries were added. When every
   * hash of `order` is in the dictionary, as `Open` guarantees, that is one name per entry.
   */
  function AssemblyNames(entries: map<Guid, Entry>, order: seq<Guid>): (r: seq<AssemblyName>)
    ensures |r| <= |order|
    ensures (forall h :: h in order ==> h in entries) ==>
      |r| == |order| && forall i :: 0 <= i < |r| ==> r[i] == entries[order[i]].assemblyName
  {
    if order == [] then []
    else
      (if order[0] in entries then [entries[order[0]].assemblyName] else [])
        + AssemblyNames(entries, order[1..])
  }
}
