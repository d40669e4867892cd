/** The exceptions the LibZ read side throws, one constructor per distinct cause. */
module Errors {

  datatype Failure =
    /** "Invalid LibZ file header": the first 16 bytes are not the magic token. */
    | InvalidHeader
    /** "Invalid LibZ file footer": the last 16 bytes are not the magic token. */
    | InvalidFooter
    /** "Unsupported LibZ file version (v)". */
    | UnsupportedVersion(version: int)
    /** `new Guid(bytes)` on fewer than 16 bytes. */
    | BadGuidLength
    /** BinaryReader ran out of bytes in a fixed-width read or a string. */
    | EndOfStream
    /** A 7-bit encoded string length longer than five bytes. */
    | Bad7BitInt
    /** A 7-bit encoded string length that decodes to a negative Int32. */
    | NegativeStringLength(length: int)
    /** Setting `Stream.Position` to a negative value. */
    | NegativePosition(position: int)
    /** `new byte[length]` with a negative length. */
    | NegativeLength(length: int)
    /** "Stream ended prematurely": a payload read came back short. */
    | StreamEndedPrematurely
    /** The entry's name is not a valid assembly name. */
    | InvalidAssemblyName
    /** `Dictionary.Add` of an entry hash that is already present. */
    | DuplicateEntry(hash: seq<bv8>)
    /** `_entries[hash]` on a hash that is not in the container. */
    | EntryNotFound(hash: seq<bv8>)
    /** "Unknown codec id". */
    | UnknownCodec(codecId: bv32)
    /** Whatever a registered decoder throws (a corrupt deflate stream, a short output). */
    | DecoderFailed
    /** "codecName is null or empty." */
    | EmptyCodecName
    /** "decoder is null." */
    | NullDecoder
    /** "Codec 'name' (id) already registered". */
    | CodecAlreadyRegistered(name: string, codecId: bv32)
    /** `ArgumentNullException("stream")` in RegisterStreamContainer. */
    | NullStream
}
