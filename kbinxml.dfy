/** The part of the external `kbinxml` codec the boundary relies on. The codec
    itself (tree layout, byte format, character conversion) is not part of this
    model: its four operations are total functions that either succeed or fail,
    supplied by the caller. */
module Kbinxml {
  import opened Base
  import opened Encoding

  /** A parsed node tree; its structure belongs to the codec. */
  type NodeCollection

  /** Codec options. A field that is `None` was never set on the builder and
      keeps the codec's own default. */
  datatype Options = Options(compression: Option<CompressionType>, encoding: Option<EncodingType>)
  {
    /** `Options::builder()`: nothing set yet. */
    static function Builder(): Options
    {
      Options(Option.None, Option.None)
    }

    /** `Options::with_encoding(e)`: the encoding set, compression left at the
        codec's default. */
    static function WithEncoding(e: EncodingType): Options
    {
      Options(Option.None, Some(e))
    }
  }

  /** The codec's operations; `None` is any failure. */
  datatype Codec = Codec(
    /** `kbinxml::from_text_xml`: text bytes to a tree and its declared encoding. */
    fromTextXml: seq<byte> -> Option<(NodeCollection, EncodingType)>,
    /** `kbinxml::from_slice`: KBin bytes to a tree and its declared encoding. */
    fromSlice: seq<byte> -> Option<(NodeCollection, EncodingType)>,
    /** `kbinxml::to_binary_with_options`. */
    toBinaryWithOptions: (Options, NodeCollection) -> Option<seq<byte>>,
    /** `kbinxml::to_text_xml`: a tree to text bytes. */
    toTextXml: NodeCollection -> Option<seq<byte>>)
}
