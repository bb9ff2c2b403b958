/** The wrappers around the codec and the host marshalling: each turns a
    failed call into one fixed error, and `BuildToBinaryOptions` resolves the
    caller's request into codec options. */
module Utils {
  import opened Base
  import opened Encoding
  import opened Errors
  import opened Kbinxml
  import opened Types
  import Unicode

  /** Parses text through the codec (it is handed the string's UTF-8 bytes). */
  function FromTextXml(codec: Codec, xml: string): (r: Result<(NodeCollection, EncodingType), KbinXMLError>)
    ensures r.Err? <==> codec.fromTextXml(Unicode.Encode(xml)).None?
    ensures r.Ok? ==> Some(r.value) == codec.fromTextXml(Unicode.Encode(xml))
    ensures r.Err? ==> r.error == InvalidXML
  {
    match codec.fromTextXml(Unicode.Encode(xml))
    case Some(parsed) => Ok(parsed)
    case None => Err(InvalidXML)
  }

  /** Serialises a tree to KBin bytes. */
  function ToBinaryWithOptions(codec: Codec, options: Options, collection: NodeCollection): (r: Result<seq<byte>, KbinXMLError>)
    ensures r.Err? <==> codec.toBinaryWithOptions(options, collection).None?
    ensures r.Ok? ==> Some(r.value) == codec.toBinaryWithOptions(options, collection)
    ensures r.Err? ==> r.error == ToBinary
  {
    match codec.toBinaryWithOptions(options, collection)
    case Some(binary) => Ok(binary)
    case None => Err(ToBinary)
  }

  /** Marshals a text result for the host. */
  function ToXmlResult(host: Host, data: XmlResult): (r: Result<JsValue, KbinXMLError>)
    ensures r.Err? <==> host.xmlToValue(data).None?
    ensures r.Ok? ==> Some(r.value) == host.xmlToValue(data)
    ensures r.Err? ==> r.error == ResultConversion
  {
    match host.xmlToValue(data)
    case Some(value) => Ok(value)
    case None => Err(ResultConversion)
  }

  /** Marshals a binary result for the host. */
  function ToBinaryResult(host: Host, data: BinaryResult): (r: Result<JsValue, KbinXMLError>)
    ensures r.Err? <==> host.binaryToValue(data).None?
    ensures r.Ok? ==> Some(r.value) == host.binaryToValue(data)
    ensures r.Err? ==> r.error == ResultConversion
  {
    match host.binaryToValue(data)
    case Some(value) => Ok(value)
    case None => Err(ResultConversion)
  }

  /** Reads the caller's options object. */
  function GetToBinaryOptions(host: Host, opts: JsValue): (r: Result<BinaryOptions, KbinXMLError>)
    ensures r.Err? <==> host.optionsFromValue(opts).None?
    ensures r.Ok? ==> Some(r.value) == host.optionsFromValue(opts)
    ensures r.Err? ==> r.error == InvalidOption
  {
    match host.optionsFromValue(opts)
    case Some(options) => Ok(options)
    case None => Err(InvalidOption)
  }

  /** Resolves a request into codec options, one builder step at a time:
      compression is always set (absent means uncompressed); the encoding is
      set only when requested, and a byte that is not a tag aborts. */
  function BuildToBinaryOptions(opts: BinaryOptions): (r: Result<Options, KbinXMLError>)
    ensures r.Err? <==> opts.encoding.Some? && opts.encoding.value !in Tags
    ensures r.Err? ==> r.error == InvalidEncodingType
    ensures r.Ok? ==> r.value.compression.Some?
    ensures r.Ok? ==> (r.value.compression == Some(Compressed) <==> opts.compression == Some(true))
    ensures r.Ok? ==> (r.value.encoding.Some? <==> opts.encoding.Some?)
    ensures r.Ok? && opts.encoding.Some? ==> ToByte(r.value.encoding.value) == opts.encoding.value
  {
    var options := Options.Builder();
    var options :=
      if opts.compression.Some? then
        options.(compression := Some(if opts.compression.value then Compressed else Uncompressed))
      else
        options.(compression := Some(Uncompressed));
    if opts.encoding.Some? then
      match FromByte(opts.encoding.value)
      case Some(encodingType) => Ok(options.(encoding := Some(encodingType)))
      case None => Err(InvalidEncodingType)
    else
      Ok(options)
  }

  /** Parses KBin bytes through the codec. */
  function GetBinaryFromSlice(codec: Codec, data: seq<byte>): (r: Result<(NodeCollection, EncodingType), KbinXMLError>)
    ensures r.Err? <==> codec.fromSlice(data).None?
    ensures r.Ok? ==> Some(r.value) == codec.fromSlice(data)
    ensures r.Err? ==> r.error == InvalidXML
  {
    match codec.fromSlice(data)
    case Some(parsed) => Ok(parsed)
    case None => Err(InvalidXML)
  }

  /** Serialises a tree to text: a codec failure is `ToXml`; bytes that are
      not UTF-8 are `Utf8Error`; otherwise the string whose UTF-8 form is
      exactly the codec's output. */
  function ToTextXml(codec: Codec, collection: NodeCollection): (r: Result<string, KbinXMLError>)
    ensures codec.toTextXml(collection).None? ==> r == Err(ToXml)
    ensures codec.toTextXml(collection).Some? ==>
      (r == Err(Utf8Error) <==> forall s :: Unicode.Encode(s) != codec.toTextXml(collection).value)
    ensures codec.toTextXml(collection).Some? ==>
      (r.Ok? <==> exists s :: Unicode.Encode(s) == codec.toTextXml(collection).value)
    ensures r.Ok? ==> codec.toTextXml(collection).Some? && Unicode.Encode(r.value) == codec.toTextXml(collection).value
  {
    match codec.toTextXml(collection)
    case None => Err(ToXml)
    case Some(buf) =>
      match Unicode.Decode(buf)
      case Some(str) =>
        assert Unicode.Encode(str) == buf;
        Ok(str)
      case None =>
        assert forall s :: Unicode.Encode(s) != buf by {
          forall s ensures Unicode.Encode(s) != buf {
            Unicode.DecodeSpec(buf, s);
          }
        }
        Err(Utf8Error)
  }
}
