/** The three entry points the host calls. Each is a chain of fallible steps
    in which the first failure is the result (Rust's `?`, here `:-`). */
module Lib {
  import opened Base
  import opened Encoding
  import opened Errors
  import opened Kbinxml
  import opened Types
  import opened Utils
  import Unicode
  import Compaction

  /** What the codec makes of a text document. */
  function ParseText(codec: Codec, xml: string): Option<(NodeCollection, EncodingType)>
  {
    codec.fromTextXml(Unicode.Encode(xml))
  }

  /** `to_bin`: text to KBin, serialised and reported with the encoding the
      document declares. */
  function ToBin(codec: Codec, host: Host, xml: string): (r: Result<BinaryResult, KbinXMLError>)
    ensures ParseText(codec, xml).None? ==> r == Err(InvalidXML)
    ensures ParseText(codec, xml).Some? ==>
      var (collection, encoding) := ParseText(codec, xml).value;
      var binary := codec.toBinaryWithOptions(Options.WithEncoding(encoding), collection);
      && (binary.None? ==> r == Err(ToBinary))
      && (binary.Some? ==>
            var result := BinaryResult(binary.value, ToByte(encoding));
            r == if host.binaryToValue(result).Some? then Ok(result) else Err(ResultConversion))
    ensures r.Err? ==> r.error in {InvalidXML, ToBinary, ResultConversion}
    ensures r.Ok? ==> r.value.encoding in Tags
  {
    var parsed :- FromTextXml(codec, xml);
    var (collection, encoding) := parsed;
    var options := Options.WithEncoding(encoding);
    var binary :- ToBinaryWithOptions(codec, options, collection);
    var result := BinaryResult(binary, ToByte(encoding));
    var _ :- ToBinaryResult(host, result);
    Ok(result)
  }

  /** The byte `to_bin_with_options` reports: the caller's, or the tag of
      `EncodingType::None` when the caller gave none. */
  function ReportedEncoding(opts: BinaryOptions): (b: byte)
    ensures opts.encoding.Some? ==> b == opts.encoding.value
    ensures opts.encoding.None? ==> b == 0x00
    ensures BuildToBinaryOptions(opts).Ok? ==>
      var options := BuildToBinaryOptions(opts).value;
      b == ToByte(if options.encoding.Some? then options.encoding.value else EncodingType.None)
  {
    match opts.encoding
    case Some(encoding) => encoding
    case None => ToByte(EncodingType.None)
  }

  /** `to_bin_with_options`: text to KBin under the caller's options. The
      options are read and resolved before the text is parsed; the encoding
      the document declares is discarded. */
  function ToBinWithOptions(codec: Codec, host: Host, xml: string, opts: JsValue): (r: Result<BinaryResult, KbinXMLError>)
    ensures host.optionsFromValue(opts).None? ==> r == Err(InvalidOption)
    ensures host.optionsFromValue(opts).Some? ==>
      var request := host.optionsFromValue(opts).value;
      && (request.encoding.Some? && request.encoding.value !in Tags ==> r == Err(InvalidEncodingType))
      && ((request.encoding.None? || request.encoding.value in Tags) ==>
            var options := BuildToBinaryOptions(request).value;
            && (ParseText(codec, xml).None? ==> r == Err(InvalidXML))
            && (ParseText(codec, xml).Some? ==>
                  var binary := codec.toBinaryWithOptions(options, ParseText(codec, xml).value.0);
                  && (binary.None? ==> r == Err(ToBinary))
                  && (binary.Some? ==>
                        var result := BinaryResult(binary.value, ReportedEncoding(request));
                        r == if host.binaryToValue(result).Some? then Ok(result) else Err(ResultConversion))))
    ensures r == Err(InvalidOption) <==> host.optionsFromValue(opts).None?
    ensures r == Err(InvalidEncodingType) <==>
      host.optionsFromValue(opts).Some? && BuildToBinaryOptions(host.optionsFromValue(opts).value).Err?
    ensures r.Ok? ==> r.value.encoding == if host.optionsFromValue(opts).value.encoding.Some? then host.optionsFromValue(opts).value.encoding.value else 0x00
    ensures r.Err? ==> r.error in {InvalidOption, InvalidEncodingType, InvalidXML, ToBinary, ResultConversion}
    ensures r.Ok? ==> r.value.encoding in Tags
  {
    var request :- GetToBinaryOptions(host, opts);
    var options :- BuildToBinaryOptions(request);
    var parsed :- FromTextXml(codec, xml);
    var (collection, _) := parsed;
    var binary :- ToBinaryWithOptions(codec, options, collection);
    var result := BinaryResult(binary, ReportedEncoding(request));
    var _ :- ToBinaryResult(host, result);
    Ok(result)
  }

  /** `to_xml`: KBin to compact text, reported with the encoding the binary
      declares. */
  function ToXml(codec: Codec, host: Host, data: seq<byte>): (r: Result<XmlResult, KbinXMLError>)
    ensures codec.fromSlice(data).None? ==> r == Err(InvalidXML)
    ensures codec.fromSlice(data).Some? ==>
      var (collection, encoding) := codec.fromSlice(data).value;
      var buf := codec.toTextXml(collection);
      && (buf.None? ==> r == Err(KbinXMLError.ToXml))
      && (buf.Some? ==> (r == Err(Utf8Error) <==> forall s :: Unicode.Encode(s) != buf.value))
      && (buf.Some? && Unicode.Decode(buf.value).Some? ==>
            var result := XmlResult(Compaction.Compact(Unicode.Decode(buf.value).value), ToByte(encoding));
            r == if host.xmlToValue(result).Some? then Ok(result) else Err(ResultConversion))
    ensures r.Err? ==> r.error in {InvalidXML, KbinXMLError.ToXml, Utf8Error, ResultConversion}
    ensures r.Ok? ==> r.value.encoding in Tags
    ensures r.Ok? ==> '\n' !in r.value.data && Compaction.Trimmed(r.value.data)
  {
    var parsed :- GetBinaryFromSlice(codec, data);
    var (collection, encoding) := parsed;
    var xml :- ToTextXml(codec, collection);
    Unicode.DecodeSpec(codec.toTextXml(collection).value, xml);
    var result := XmlResult(Compaction.Compact(xml), ToByte(encoding));
    var _ :- ToXmlResult(host, result);
    Ok(result)
  }

  /** The same codec, except that every document it parses declares `e`. */
  function Redeclare(codec: Codec, e: EncodingType): Codec
  {
    codec.(fromTextXml := bytes =>
      if codec.fromTextXml(bytes).Some? then Some((codec.fromTextXml(bytes).value.0, e)) else Option.None)
  }

  /** `to_bin_with_options` does not depend on the encoding the document
      declares: the same request gives the same result whatever it is. */
  lemma ToBinWithOptionsIgnoresDeclaredEncoding(codec: Codec, host: Host, xml: string, opts: JsValue, e: EncodingType)
    ensures ToBinWithOptions(Redeclare(codec, e), host, xml, opts) == ToBinWithOptions(codec, host, xml, opts)
  {
  }

  /** `to_bin` does: a document redeclared as `e` is reported as `e`. */
  lemma ToBinReportsDeclaredEncoding(codec: Codec, host: Host, xml: string, e: EncodingType)
    ensures ToBin(Redeclare(codec, e), host, xml).Ok? ==> ToBin(Redeclare(codec, e), host, xml).value.encoding == ToByte(e)
  {
  }
}
