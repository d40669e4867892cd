/**
 * `LibZResolver`'s registration state: the list of open containers, kept free of two containers
 * with the same id, and the decoder registry, which starts out holding the Deflate decoder.
 */
module Resolver {
  import opened Wrappers
  import opened Errors
  import opened Binary
  import opened Codecs
  import opened ContainerFormat
  import opened Reader
  import Crc

  /** The containers the readers hold, in registration order. */
  function ContainersOf(readers: seq<LibZReader>): (r: seq<Container>)
    reads readers
    ensures |r| == |readers|
    ensures forall i :: 0 <= i < |readers| ==> r[i] == readers[i].Snapshot()
  {
    if readers == [] then [] else [readers[0].Snapshot()] + ContainersOf(readers[1..])
  }

  /** The ids of the readers' containers, in registration order. */
  function IdsOf(readers: seq<LibZReader>): (r: seq<Guid>)
    reads readers
    ensures |r| == |readers|
    ensures forall i :: 0 <= i < |readers| ==> r[i] == readers[i].containerId
  {
    if readers == [] then [] else [readers[0].containerId] + IdsOf(readers[1..])
  }

  class LibZResolver {
    /** `Containers`: every reader registered so far, in registration order. */
    var readers: seq<LibZReader>
    /** `Decoders`: the codecs payloads are decoded with. */
    const registry: DecoderRegistry

    function Containers(): seq<Container>
      reads this, readers
    {
      ContainersOf(readers)
    }

    function Ids(): seq<Guid>
      reads this, readers
    {
      IdsOf(readers)
    }

    /**
     * No two registered containers share an id. (The registry keeps its own invariant,
     * `registry.Valid()`, which only `RegisterDecoder` needs.)
     */
    ghost predicate Valid()
      reads this, readers
    {
      Distinct(Ids())
    }

    /**
     * The static constructor: no containers, and a registry holding only the Deflate decoder,
     * under the CRC of "deflate".
     */
    constructor (hash: Crc.Hash, deflate: Decoder)
      requires hash.Valid()
      ensures Valid() && registry.Valid()
      ensures readers == [] && fresh(registry)
      ensures registry.decoders == map[Key(0xE2B0_6B05) := deflate]
    {
      readers := [];
      registry := new DecoderRegistry(hash);
      new;
      var _ := registry.RegisterDecoder("deflate", Some(deflate), false);
      DeflateCodecId();
    }

    /**
     * The de-duplication in the `RegisterStream` callback: when a container with the same id is
     * registered already, keep that one and return it, otherwise append `reader` and return it.
     */
    method Register(reader: LibZReader) returns (r: LibZReader)
      requires Valid()
      modifies this
      ensures Valid() && registry.decoders == old(registry.decoders)
      ensures r.containerId == reader.containerId
      ensures reader.containerId in old(Ids()) ==> readers == old(readers) && r in readers
      ensures reader.containerId !in old(Ids()) ==> readers == old(readers) + [reader] && r == reader
    {
      var i := 0;
      while i < |readers| && readers[i].containerId != reader.containerId
        invariant 0 <= i <= |readers|
        invariant forall j :: 0 <= j < i ==> readers[j].containerId != reader.containerId
      {
        i := i + 1;
      }
      if i < |readers| {
        return readers[i];
      }
      DistinctAppend(Ids(), reader.containerId);
      IdsAppend(readers, reader);
      readers := readers + [reader];
      r := reader;
    }

    /**
     * The `RegisterStream` callback: open the stream as a container, then register it unless a
     * container with the same id is registered already. A stream that does not open registers
     * nothing.
     */
    method RegisterStream(stream: ByteStream, parse: NameParser) returns (r: Result<LibZReader, Failure>)
      requires Valid()
      modifies this, stream
      ensures Valid() && registry.decoders == old(registry.decoders)
      ensures r.Ok? <==> Open(stream.data, parse).Ok?
      ensures r.Err? ==> r.error == Open(stream.data, parse).error && readers == old(readers)
      ensures r.Ok? ==>
        var id := Open(stream.data, parse).value.containerId;
        && r.value.containerId == id
        && (id in old(Ids()) ==> readers == old(readers) && r.value in readers)
        && (id !in old(Ids()) ==>
              && readers == old(readers) + [r.value]
              && r.value.Snapshot() == Open(stream.data, parse).value)
    {
      var status := NewReader(stream, parse);
      if status.Err? {
        return Err(status.error);
      }
      var registered := Register(status.value);
      r := Ok(registered);
    }

    /**
     * `RegisterStreamContainer(stream, optional)`: `Ok(Some(reader))` is a proxy for the catalog
     * of `reader`, `Ok(None)` the empty proxy. A null stream and a stream that does not open are
     * errors when the container is not optional and the empty proxy when it is.
     */
    method RegisterStreamContainer(stream: ByteStream?, optional: bool, parse: NameParser)
      returns (r: Result<Option<LibZReader>, Failure>)
      requires Valid()
      modifies this, stream
      ensures Valid() && registry.decoders == old(registry.decoders)
      ensures stream == null ==> readers == old(readers) && r == (if optional then Ok(None) else Err(NullStream))
      ensures stream != null && Open(stream.data, parse).Err? ==>
        readers == old(readers)
        && r == (if optional then Ok(None) else Err(Open(stream.data, parse).error))
      ensures stream != null && Open(stream.data, parse).Ok? ==>
        var id := Open(stream.data, parse).value.containerId;
        && r.Ok? && r.value.Some? && r.value.value.containerId == id
        && readers == old(readers) + (if id in old(Ids()) then [] else [r.value.value])
    {
      if stream == null {
        if optional {
          return Ok(None);
        }
        return Err(NullStream);
      }
      var registered := RegisterStream(stream, parse);
      if registered.Err? {
        if optional {
          return Ok(None);
        }
        return Err(registered.error);
      }
      r := Ok(Some(registered.value));
    }

    /**
     * `LibZResolver.RegisterDecoder`: the registry's rules, applied to the resolver's registry;
     * the registered containers are untouched.
     */
    method RegisterDecoder(name: string, decoder: Option<Decoder>, overwrite: bool)
      returns (r: Result<(), Failure>)
      requires Valid() && registry.Valid()
      modifies registry
      ensures Valid() && registry.Valid() && readers == old(readers)
      ensures var s := AddDecoder(old(registry.decoders), name, decoder, overwrite);
        && r == (if s.Ok? then Ok(()) else Err(s.error))
        && registry.decoders == (if s.Ok? then s.value else old(registry.decoders))
    {
      r := registry.RegisterDecoder(name, decoder, overwrite);
    }
  }

  /** The ids of one more reader are the ids so far and its own. */
  lemma IdsAppend(readers: seq<LibZReader>, reader: LibZReader)
    ensures IdsOf(readers + [reader]) == IdsOf(readers) + [reader.containerId]
  {
  }
}
