/**
 * The decoder registry: codec names hash to 32-bit codec ids (`Hash.CRC` of the lower-cased
 * UTF-8 name), ids map to decoders, and `Decode` dispatches a payload on its entry's codec id.
 * Decoders are opaque functions; the one the resolver registers at start-up is Deflate.
 */
module Codecs {
  import opened Wrappers
  import opened Errors
  import opened Binary
  import opened Text
  import Crc

  /**
   * A registered decoder: payload bytes and the expected output length in, decoded bytes out, or
   * the exception it throws.
   */
  type Decoder = (seq<byte>, int) -> Result<seq<byte>, Failure>

  /**
   * A dictionary key holding a codec id (a map keyed directly by bit-vectors does not let the
   * verifier read back what was stored).
   */
  datatype CodecKey = Key(id: bv32)

  type DecoderTable = map<CodecKey, Decoder>

  /** `Hash.CRC(string)`: the CRC-32 of the UTF-8 bytes of the lower-cased name. */
  function CodecId(name: string): bv32 {
    Crc.Crc32(Utf8(Lower(name)))
  }

  /**
   * `RegisterDecoder` on a table value: an empty name and a missing decoder are refused; without
   * `overwrite` an id already present is refused (and the table is kept); otherwise the id is
   * bound to the decoder.
   */
  function AddDecoder(t: DecoderTable, name: string, decoder: Option<Decoder>, overwrite: bool)
    : (r: Result<DecoderTable, Failure>)
    ensures r.Ok? <==> name != [] && decoder.Some? && (overwrite || Key(CodecId(name)) !in t)
    ensures name == [] ==> r == Err(EmptyCodecName)
    ensures name != [] && decoder.None? ==> r == Err(NullDecoder)
    ensures name != [] && decoder.Some? && !overwrite && Key(CodecId(name)) in t ==>
      r == Err(CodecAlreadyRegistered(name, CodecId(name)))
    ensures r.Ok? ==> Key(CodecId(name)) in r.value && r.value[Key(CodecId(name))] == decoder.value
    ensures r.Ok? ==> forall key :: key != Key(CodecId(name)) ==>
      (key in r.value <==> key in t) && (key in t ==> r.value[key] == t[key])
  {
    if name == [] then Err(EmptyCodecName)
    else if decoder.None? then Err(NullDecoder)
    else
      var id := CodecId(name);
      if !overwrite && Key(id) in t then Err(CodecAlreadyRegistered(name, id))
      else Ok(t[Key(id) := decoder.value])
  }

  /**
   * `LibZReader.Decode`: codec id 0 hands the stored bytes back unchanged, an unregistered id is
   * an error, any other id is whatever its decoder returns.
   */
  function Decode(codecId: bv32, data: seq<byte>, outputLength: int, t: DecoderTable)
    : (r: Result<seq<byte>, Failure>)
    ensures codecId == 0 ==> r == Ok(data)
    ensures codecId != 0 && Key(codecId) !in t ==> r == Err(UnknownCodec(codecId))
  {
    if codecId == 0 then Ok(data)
    else if Key(codecId) !in t then Err(UnknownCodec(codecId))
    else t[Key(codecId)](data, outputLength)
  }

  /** Once a decoder is registered under a non-zero id, `Decode` with that id is that decoder. */
  lemma DecodeAfterAdd(t: DecoderTable, name: string, d: Decoder, overwrite: bool,
                       data: seq<byte>, outputLength: int)
    requires AddDecoder(t, name, Some(d), overwrite).Ok?
    requires CodecId(name) != 0
    ensures Decode(CodecId(name), data, outputLength, AddDecoder(t, name, Some(d), overwrite).value)
      == d(data, outputLength)
  {
  }

  /** Registering a decoder changes how no other codec id decodes. */
  lemma AddLeavesOtherCodecs(t: DecoderTable, name: string, d: Option<Decoder>, overwrite: bool,
                             codecId: bv32, data: seq<byte>, outputLength: int)
    requires AddDecoder(t, name, d, overwrite).Ok?
    requires codecId != CodecId(name)
    ensures Decode(codecId, data, outputLength, AddDecoder(t, name, d, overwrite).value)
      == Decode(codecId, data, outputLength, t)
  {
  }



  /** Names that differ only in letter case hash to the same codec id. */
  lemma CodecIdIgnoresCase(a: string, b: string)
    requires EqualsIgnoreCase(a, b)
    ensures CodecId(a) == CodecId(b)
  {
  }

  /**
   * After `a` is registered, registering `b`, equal to `a` but for letter case, without
   * `overwrite` fails, whatever the decoder; with `overwrite` it succeeds and replaces the decoder.
   */
  lemma SecondRegistration(t: DecoderTable, a: string, b: string, d1: Decoder, d2: Decoder,
                           overwrite: bool)
    requires AddDecoder(t, a, Some(d1), overwrite).Ok?
    requires EqualsIgnoreCase(a, b)
    ensures var t' := AddDecoder(t, a, Some(d1), overwrite).value;
      && AddDecoder(t', b, Some(d2), false) == Err(CodecAlreadyRegistered(b, CodecId(b)))
      && AddDecoder(t', b, Some(d2), true) == Ok(t'[Key(CodecId(a)) := d2])
  {
    CodecIdIgnoresCase(a, b);
    assert |Lower(b)| == |Lower(a)|;
  }

  /** "deflate" in UTF-8. */
  const DeflateName: seq<byte> := [0x64, 0x65, 0x66, 0x6C, 0x61, 0x74, 0x65]

  /** The CRC register before and after each byte of `DeflateName`. */
  const DeflateRegisters: seq<bv32> :=
    [0xffff_ffff, 0x6722_b533, 0x826f_d674, 0xf33b_1e9e, 0x5340_a82e, 0xe630_1ca9,
     0xf884_9e75, 0x1d4f_94fa]

  lemma DeflateSteps1()
    ensures Crc.ShiftN(0xffff_ffff ^ 0x64, 8) == 0x6722_b533
    ensures Crc.ShiftN(0x6722_b533 ^ 0x65, 8) == 0x826f_d674
    ensures Crc.ShiftN(0x826f_d674 ^ 0x66, 8) == 0xf33b_1e9e
    ensures Crc.ShiftN(0xf33b_1e9e ^ 0x6C, 8) == 0x5340_a82e
  {
  }

  lemma DeflateSteps2()
    ensures Crc.ShiftN(0x5340_a82e ^ 0x61, 8) == 0xe630_1ca9
    ensures Crc.ShiftN(0xe630_1ca9 ^ 0x74, 8) == 0xf884_9e75
    ensures Crc.ShiftN(0xf884_9e75 ^ 0x65, 8) == 0x1d4f_94fa
  {
  }

  lemma DeflateStep(j: nat)
    requires j < 7
    ensures Crc.ShiftN(DeflateRegisters[j] ^ (DeflateName[j] as bv32), 8) == DeflateRegisters[j + 1]
  {
    if j < 4 {
      DeflateSteps1();
    } else {
      DeflateSteps2();
    }
  }

  lemma DeflateRegister()
    ensures Crc.Register(DeflateName) == 0x1d4f_94fa
  {
    forall j | 0 <= j < 7
      ensures Crc.ShiftN(DeflateRegisters[j] ^ (DeflateName[j] as bv32), 8) == DeflateRegisters[j + 1]
    {
      DeflateStep(j);
    }
    Crc.RegisterTrace(DeflateName, DeflateRegisters, 7);
    assert DeflateName[..7] == DeflateName;
  }

  lemma DeflateChars()
    ensures Utf8Char('d') == [0x64] && Utf8Char('e') == [0x65] && Utf8Char('f') == [0x66]
    ensures Utf8Char('l') == [0x6C] && Utf8Char('a') == [0x61] && Utf8Char('t') == [0x74]
  {
  }

  lemma DeflateBytes()
    ensures Utf8(Lower("deflate")) == DeflateName
  {
    var s := "deflate";
    assert Lower(s) == s by {
      assert forall i :: 0 <= i < |s| ==> Lower(s)[i] == s[i];
    }
    DeflateChars();
    calc {
      Utf8(s);
      Utf8Char('d') + (Utf8Char('e') + (Utf8Char('f') + (Utf8Char('l') + (Utf8Char('a') + Utf8("te")))));
      Utf8Char('d') + (Utf8Char('e') + (Utf8Char('f') + (Utf8Char('l') + (Utf8Char('a') + (Utf8Char('t') + (Utf8Char('e') + Utf8("")))))));
      DeflateName;
    }
  }

  /** The codec id of "deflate", the decoder registered at start-up; it is not the pass-through id 0. */
  lemma DeflateCodecId()
    ensures CodecId("deflate") == 0xE2B0_6B05
  {
    DeflateBytes();
    DeflateRegister();
  }

  /**
   * The registry the resolver owns (`LibZResolver.Decoders`, and `LibZReader.Decoders` alike):
   * a dictionary updated in place, with the CRC table it hashes names with.
   */
  class DecoderRegistry {
    var decoders: DecoderTable
    const hash: Crc.Hash

    ghost predicate Valid()
      reads this, hash, hash.table
    {
      hash.Valid()
    }

    constructor (hash: Crc.Hash)
      requires hash.Valid()
      ensures Valid() && this.hash == hash && decoders == map[]
    {
      this.hash := hash;
      decoders := map[];
    }

    /** `RegisterDecoder(codecName, decoder, overwrite)`; a failed registration leaves the table as it was. */
    method RegisterDecoder(name: string, decoder: Option<Decoder>, overwrite: bool)
      returns (r: Result<(), Failure>)
      requires Valid()
      modifies this
      ensures Valid()
      ensures var s := AddDecoder(old(decoders), name, decoder, overwrite);
        && r == (if s.Ok? then Ok(()) else Err(s.error))
        && decoders == (if s.Ok? then s.value else old(decoders))
    {
      if name == [] {
        return Err(EmptyCodecName);
      }
      if decoder.None? {
        return Err(NullDecoder);
      }
      var codecId := hash.Crc(Utf8(Lower(name)));
      if overwrite {
        decoders := decoders[Key(codecId) := decoder.value];
      } else {
        if Key(codecId) in decoders {
          return Err(CodecAlreadyRegistered(name, codecId));
        }
        decoders := decoders[Key(codecId) := decoder.value];
      }
      r := Ok(());
    }
  }
}
