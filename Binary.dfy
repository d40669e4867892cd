/**
 * The byte-level reading primitives LibZReader relies on: a stream over a byte image with a
 * shared position, and the values `BinaryReader` produces from it (little-endian integers,
 * 16-byte GUIDs, 7-bit length-prefixed strings).
 */
module Binary {
  import opened Wrappers
  import opened Errors

  type byte = bv8

  /** A `System.Guid` built from 16 bytes; two GUIDs are equal exactly when their bytes are. */
  type Guid = s: seq<byte> | |s| == 16 witness [0, 0, 0, 0, 0, 0, 0, 0, 0, 0, 0, 0, 0, 0, 0, 0]

  /** The container magic token: the ASCII bytes of "LibZContainer103". */
  const Magic: Guid :=
    [0x4C, 0x69, 0x62, 0x5A, 0x43, 0x6F, 0x6E, 0x74, 0x61, 0x69, 0x6E, 0x65, 0x72, 0x31, 0x30, 0x33]

  /** A value read from the stream and the position just after it. */
  datatype Read<T> = Read(value: T, next: nat)

  /** Drops the position from a successful read. */
  function ValueOf<T>(r: Result<Read<T>, Failure>): Result<T, Failure> {
    match r
    case Ok(read) => Ok(read.value)
    case Err(e) => Err(e)
  }

  /**
   * The bytes one `Stream.Read` (or `BinaryReader.ReadBytes`) of `n` bytes at `pos` returns:
   * as many as are left, at most `n`; none when the position is at or past the end.
   */
  function Take(data: seq<byte>, pos: nat, n: nat): (r: seq<byte>)
    ensures |r| <= n
    ensures |r| == n <==> n == 0 || pos + n <= |data|
    ensures pos + n <= |data| ==> r == data[pos..pos + n]
  {
    if pos >= |data| then []
    else if pos + n <= |data| then data[pos..pos + n]
    else data[pos..]
  }

  function Pow256(k: nat): (r: nat)
    ensures r >= 1
  {
    if k == 0 then 1 else 256 * Pow256(k - 1)
  }

  /** The unsigned little-endian value of `bytes`. */
  function LittleEndian(bytes: seq<byte>): (r: nat)
    ensures r < Pow256(|bytes|)
  {
    if bytes == [] then 0 else bytes[0] as nat + 256 * LittleEndian(bytes[1..])
  }

  /** Two's-complement reading of an unsigned value below `2 * half`. */
  function Signed(u: nat, half: int): int {
    if u < half then u else u - 2 * half
  }

  const Int32Half: int := 0x8000_0000
  const Int64Half: int := 0x8000_0000_0000_0000

  /** `n` bytes exactly, or `EndOfStream` (BinaryReader's FillBuffer). */
  function BytesAt(data: seq<byte>, pos: nat, n: nat): (r: Result<Read<seq<byte>>, Failure>)
    ensures r.Ok? <==> n == 0 || pos + n <= |data|
    ensures r.Ok? ==> |r.value.value| == n && r.value.next == pos + n
  {
    var b := Take(data, pos, n);
    if |b| < n then Err(EndOfStream) else Ok(Read(b, pos + n))
  }

  /** `new Guid(ReadBytes(16))`: a short read leaves fewer than 16 bytes and the GUID constructor throws. */
  function GuidAt(data: seq<byte>, pos: nat): (r: Result<Read<Guid>, Failure>)
    ensures r.Ok? <==> pos + 16 <= |data|
    ensures r.Ok? ==> r.value.value == data[pos..pos + 16] && r.value.next == pos + 16
  {
    var b := Take(data, pos, 16);
    if |b| < 16 then Err(BadGuidLength) else var g: Guid := b; Ok(Read(g, pos + 16))
  }

  /** `ReadInt32`. */
  function Int32At(data: seq<byte>, pos: nat): (r: Result<Read<int>, Failure>)
    ensures r.Ok? <==> pos + 4 <= |data|
    ensures r.Ok? ==> r.value.next == pos + 4
    ensures r.Ok? ==> -Int32Half <= r.value.value < Int32Half
    ensures r.Ok? ==> r.value.value == Signed(LittleEndian(data[pos..pos + 4]), Int32Half)
    ensures r.Err? ==> r.error == EndOfStream
  {
    var b :- BytesAt(data, pos, 4);
    Ok(Read(Signed(LittleEndian(b.value), Int32Half), b.next))
  }

  /** `ReadInt64`. */
  function Int64At(data: seq<byte>, pos: nat): (r: Result<Read<int>, Failure>)
    ensures r.Ok? <==> pos + 8 <= |data|
    ensures r.Ok? ==> r.value.next == pos + 8
    ensures r.Ok? ==> -Int64Half <= r.value.value < Int64Half
    ensures r.Ok? ==> r.value.value == Signed(LittleEndian(data[pos..pos + 8]), Int64Half)
    ensures r.Err? ==> r.error == EndOfStream
  {
    var b :- BytesAt(data, pos, 8);
    Ok(Read(Signed(LittleEndian(b.value), Int64Half), b.next))
  }

  /** `ReadUInt32`, kept as its 32 bits (codec ids and flags are compared bitwise). */
  function UInt32At(data: seq<byte>, pos: nat): (r: Result<Read<bv32>, Failure>)
    ensures r.Ok? <==> pos + 4 <= |data|
    ensures r.Ok? ==> r.value.next == pos + 4
    ensures r.Ok? ==> r.value.value == LittleEndian(data[pos..pos + 4]) as bv32
    ensures r.Err? ==> r.error == EndOfStream
  {
    var b :- BytesAt(data, pos, 4);
    assert Pow256(4) == 0x1_0000_0000;
    Ok(Read(LittleEndian(b.value) as bv32, b.next))
  }

  /**
   * How many bytes `BinaryReader.Read7BitEncodedInt` consumes at `pos`: up to and including the
   * first byte with its high bit clear. A sixth byte is a format error. `groups` bytes are
   * already consumed.
   */
  function SevenBitLength(data: seq<byte>, pos: nat, groups: nat): (r: Result<nat, Failure>)
    ensures r.Ok? ==> 1 <= r.value && pos + r.value <= |data|
    decreases 5 - groups
  {
    if groups >= 5 then Err(Bad7BitInt)
    else if pos >= |data| then Err(EndOfStream)
    else if data[pos] < 0x80 then Ok(1)
    else
      var rest :- SevenBitLength(data, pos + 1, groups + 1);
      Ok(rest + 1)
  }

  /** The number the groups of seven bits spell, least significant group first. */
  function SevenBitValue(groups: seq<byte>): nat {
    if groups == [] then 0 else (groups[0] & 0x7F) as nat + 128 * SevenBitValue(groups[1..])
  }

  /**
   * `BinaryReader.Read7BitEncodedInt`: seven bits per byte, least significant group first, the
   * high bit set on every byte but the last; the groups are OR-ed into an Int32, so bits beyond
   * the 32nd are lost.
   */
  function SevenBitIntAt(data: seq<byte>, pos: nat): (r: Result<Read<int>, Failure>)
    ensures r.Ok? ==> pos < r.value.next <= |data|
    ensures r.Ok? ==> -Int32Half <= r.value.value < Int32Half
  {
    var n :- SevenBitLength(data, pos, 0);
    Ok(Read(Signed(SevenBitValue(data[pos..pos + n]) % (2 * Int32Half), Int32Half), pos + n))
  }

  /**
   * `BinaryReader.ReadString` up to the text decoding: the 7-bit encoded byte length, then that
   * many bytes (a negative length is an IOException; running out of bytes is EndOfStream).
   */
  function StringAt(data: seq<byte>, pos: nat): (r: Result<Read<seq<byte>>, Failure>)
    ensures r.Ok? ==> pos < r.value.next <= |data| && |r.value.value| < r.value.next - pos
    ensures r.Ok? ==> r.value.value == data[r.value.next - |r.value.value| .. r.value.next]
    ensures var len := SevenBitIntAt(data, pos);
      r.Ok? <==> len.Ok? && 0 <= len.value.value && len.value.next + len.value.value <= |data|
    ensures r.Ok? ==> var len := SevenBitIntAt(data, pos).value;
      && r.value.value == data[len.next..len.next + len.value]
      && r.value.next == len.next + len.value
    ensures r.Err? ==> var len := SevenBitIntAt(data, pos);
      r.error == if len.Err? then len.error
                 else if len.value.value < 0 then NegativeStringLength(len.value.value)
                 else EndOfStream
  {
    var len :- SevenBitIntAt(data, pos);
    if len.value < 0 then Err(NegativeStringLength(len.value))
    else
      var b :- BytesAt(data, len.next, len.value);
      Ok(b)
  }

  /** A seekable stream over a fixed byte image together with the BinaryReader that reads it. */
  class ByteStream {
    const data: seq<byte>
    var position: nat

    constructor (data: seq<byte>)
      ensures this.data == data && position == 0
    {
      this.data := data;
      position := 0;
    }

    /** `Stream.Position = p`: a negative position is refused. */
    method Seek(p: int) returns (r: Result<(), Failure>)
      modifies this
      ensures r.Ok? <==> p >= 0
      ensures r.Err? ==> r.error == NegativePosition(p)
      ensures position == if p >= 0 then p else old(position)
    {
      if p < 0 {
        return Err(NegativePosition(p));
      }
      position := p;
      r := Ok(());
    }

    /**
     * Performs the read `read`, computed at the current position: on success the position moves
     * past the value. A failed read ends the whole operation, so its partial progress is not kept.
     */
    method Next<T>(read: Result<Read<T>, Failure>) returns (r: Result<T, Failure>)
      modifies this
      ensures r == ValueOf(read)
      ensures position == if read.Ok? then read.value.next else old(position)
    {
      if read.Err? {
        return Err(read.error);
      }
      position := read.value.next;
      r := Ok(read.value.value);
    }
  }
}
