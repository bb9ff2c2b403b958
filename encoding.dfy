/** The text encodings a KBin document can declare, each identified by a
    one-byte tag, and the two compression modes of the binary form. */
module Encoding {
  import opened Base

  datatype EncodingType = None | Ascii | Iso8859_1 | EucJp | ShiftJis | Utf8

  datatype CompressionType = Compressed | Uncompressed

  /** The six defined tags. */
  const Tags: set<byte> := {0x00, 0x20, 0x40, 0x60, 0x80, 0xA0}

  /** The tag of an encoding; total. */
  function ToByte(e: EncodingType): (b: byte)
    ensures b in Tags
  {
    match e
    case None => 0x00
    case Ascii => 0x20
    case Iso8859_1 => 0x40
    case EucJp => 0x60
    case ShiftJis => 0x80
    case Utf8 => 0xA0
  }

  /** The encoding a byte names; fails exactly on bytes that are not tags. */
  function FromByte(b: byte): (r: Option<EncodingType>)
    ensures r.Some? <==> b in Tags
    ensures r.Some? ==> ToByte(r.value) == b
  {
    if b == 0x00 then Some(EncodingType.None)
    else if b == 0x20 then Some(Ascii)
    else if b == 0x40 then Some(Iso8859_1)
    else if b == 0x60 then Some(EucJp)
    else if b == 0x80 then Some(ShiftJis)
    else if b == 0xA0 then Some(Utf8)
    else Option.None
  }

  /** Reading back the tag of an encoding gives that encoding. */
  lemma FromByteToByte(e: EncodingType)
    ensures FromByte(ToByte(e)) == Some(e)
  {
  }

  /** Distinct encodings have distinct tags, so the tag table is a bijection
      between the six encodings and the six tags. */
  lemma ToByteInjective(e1: EncodingType, e2: EncodingType)
    ensures ToByte(e1) == ToByte(e2) ==> e1 == e2
  {
  }

  /** Every tag is the tag of exactly one encoding. */
  lemma TagsAreImage(b: byte)
    requires b in Tags
    ensures exists e :: ToByte(e) == b
    ensures forall e :: ToByte(e) == b ==> FromByte(b) == Some(e)
  {
    assert ToByte(FromByte(b).value) == b;
  }
}
