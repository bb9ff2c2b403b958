# kbinxml-wasm boundary, modelled in Dafny

kbinxml-wasm is a thin WebAssembly layer around the `kbinxml` codec. The
codec converts between XML text and KBin, a compact binary node-tree format.
The layer adds its own policy around the codec, and that policy is what this
project models:

- the six one-byte encoding tags (`0x00` None, `0x20` ASCII, `0x40`
  ISO-8859-1, `0x60` EUC-JP, `0x80` Shift-JIS, `0xA0` UTF-8) and the two
  compression modes;
- the resolution of a caller's `{compression?, encoding?}` request into codec
  options;
- the wrappers that turn each failed codec or marshalling call into one fixed
  `KbinXMLError` variant;
- the three entry points `to_bin`, `to_bin_with_options` and `to_xml`;
- the compaction of `to_xml`'s text (split on `'\n'`, trim each line, join);
- the error taxonomy and its display messages.

The codec and the host's marshalling are not modelled. They are records of
total functions (`Kbinxml.Codec`, `Types.Host`) passed as parameters, and
`None` stands for any failure. The tree type (`NodeCollection`) and the host
value type (`JsValue`) are opaque. Each contract about an entry point holds
for every codec and every host.

Files:

- `base.dfy`: `Option`, `Result` (propagated with `:-` the way Rust's `?`
  propagates) and `byte`.
- `encoding.dfy`: `EncodingType`, `CompressionType`, `ToByte`, `FromByte`.
- `error.dfy`: `KbinXMLError` and `Message`.
- `unicode.dfy`: UTF-8 as Rust's `String` uses it. `Encode` is
  `str::as_bytes`. `Decode` is `String::from_utf8` and accepts exactly the
  well-formed sequences of Table 3-7 of the Unicode Standard.
- `compaction.dfy`: `char::is_whitespace`, `split('\n')`, `trim` and the
  compact form, with their laws.
- `kbinxml.dfy`: the codec interface and its `Options`.
- `types.dfy`: the records exchanged with the host, and the host
  marshalling.
- `utils.dfy`: the wrappers and `BuildToBinaryOptions`.
- `lib.dfy`: the entry points.

Two behaviours of the code worth noting:

- `to_bin_with_options` discards the encoding the document declares, and
  reports `0x00` when the request names no encoding. See
  `Lib.ToBinWithOptionsIgnoresDeclaredEncoding`.
- `to_xml` always compacts its text.

## Model

| member | source | states |
|---|---|---|
| `Encoding.ToByte` | src/lib.rs:21-22 | every encoding's tag is one of the six defined tags |
| `Encoding.FromByte` | src/lib.rs:21-22 | succeeds exactly on the six tags, and then gives the encoding whose tag is that byte |
| `Encoding.FromByteToByte` | src/lib.rs:21-22 | reading an encoding's tag back gives that encoding |
| `Encoding.ToByteInjective` | src/lib.rs:21-22 | distinct encodings have distinct tags |
| `Encoding.TagsAreImage` | src/lib.rs:21-22 | every tag belongs to exactly one encoding, which `FromByte` returns |
| `Errors.SevenVariants` | src/error.rs:4-12 | the error type has exactly seven variants, listed once each |
| `Errors.Message` | src/error.rs:15-26 | the display message is non-empty and names its variant: it reads back as that variant |
| `Errors.MessageInjective` | src/error.rs:17-25 | the seven messages are pairwise distinct, so the message determines the variant |
| `Unicode.Encode` | src/utils.rs:19 | the UTF-8 form is between one and four bytes per character; an all-ASCII string is its own bytes, one per character, in place |
| `Unicode.EncodeConcat` | src/utils.rs:19 | the UTF-8 form of a concatenation is the concatenation of the UTF-8 forms |
| `Unicode.Decode` | src/utils.rs:97 | a successful UTF-8 decoding returns a string whose UTF-8 form is exactly the input bytes |
| `Unicode.DecodeEncode` | src/utils.rs:97 | decoding the UTF-8 form of any string gives that string back |
| `Unicode.DecodeSpec` | src/utils.rs:97 | decoding gives `s` if and only if the bytes are the UTF-8 form of `s` |
| `Compaction.IsWhitespace` | src/lib.rs:88 | `char::is_whitespace` holds exactly for the 25 characters with the Unicode White_Space property |
| `Compaction.Split` | src/lib.rs:87 | at least one line, no line holds `'\n'`, and the lines joined with `'\n'` are the input |
| `Compaction.SkipWhitespace` | src/lib.rs:88 | the first position from a start index that does not hold whitespace; everything skipped is whitespace |
| `Compaction.SkipWhitespaceBack` | src/lib.rs:88 | the end of a range once its trailing whitespace is dropped; everything dropped is whitespace |
| `Compaction.TrimBounds` | src/lib.rs:88 | where `trim` cuts: all characters before the start and from the end on are whitespace, and the first and last kept characters are not |
| `Compaction.Trim` | src/lib.rs:88 | the trimmed line neither starts nor ends with whitespace, and trimming adds no `'\n'` |
| `Compaction.JoinTrimmed` | src/lib.rs:88-90 | the trimmed lines joined with no separator neither start nor end with whitespace, and hold no `'\n'` when no line does |
| `Compaction.Compact` | src/lib.rs:86-90 | the compact text holds no `'\n'`, neither starts nor ends with whitespace, and is the input with only whitespace deleted |
| `Compaction.TrimDeletesOnlyWhitespace` | src/lib.rs:88 | trimming deletes only whitespace characters |
| `Compaction.CompactDeletesOnlyWhitespace` | src/lib.rs:86-90 | the compact text has exactly the input's non-whitespace characters, in order |
| `Compaction.CompactFixedPoint` | src/lib.rs:86-90 | a trimmed text without `'\n'` is its own compact form |
| `Compaction.CompactSingleLine` | src/lib.rs:86-90 | a text without `'\n'` compacts to its trimmed form |
| `Compaction.CompactAtNewline` | src/lib.rs:86-90 | the compact form of `a + "\n" + b` is the compact form of `a` followed directly by that of `b`; with the single-line law this fixes the compact form of every text |
| `Compaction.CompactIdempotent` | src/lib.rs:86-90 | compacting twice is compacting once |
| `Utils.FromTextXml` | src/utils.rs:18-25 | the codec's tree and encoding for the text's UTF-8 bytes, unchanged, on success; `InvalidXML` exactly when the codec fails |
| `Utils.ToBinaryWithOptions` | src/utils.rs:27-36 | the codec's bytes on success; `ToBinary` exactly when the codec fails |
| `Utils.ToXmlResult` | src/utils.rs:38-44 | the host value on success; `ResultConversion` exactly when marshalling fails |
| `Utils.ToBinaryResult` | src/utils.rs:46-52 | the host value on success; `ResultConversion` exactly when marshalling fails |
| `Utils.GetToBinaryOptions` | src/utils.rs:54-60 | the request read from the host value on success; `InvalidOption` exactly when reading fails |
| `Utils.BuildToBinaryOptions` | src/utils.rs:62-83 | fails, with `InvalidEncodingType`, exactly when an encoding byte is given that is not a tag; otherwise compression is always set and is Compressed exactly for `Some(true)`, the encoding is set exactly when one is given, and it is the encoding whose tag is that byte |
| `Utils.GetBinaryFromSlice` | src/utils.rs:85-93 | the codec's tree and encoding, unchanged, on success; `InvalidXML` exactly when the codec fails |
| `Utils.ToTextXml` | src/utils.rs:95-105 | a codec failure gives `ToXml`; codec output that is the UTF-8 form of no string gives `Utf8Error`; codec output that is the UTF-8 form of some string gives `Ok`, with the string whose UTF-8 form is exactly the codec output |
| `Lib.ToBin` | src/lib.rs:42-54 | the first failing stage decides the error, in the order `InvalidXML`, `ToBinary`, `ResultConversion`; on success the tree is serialised with the document's declared encoding, the tag of that encoding is reported, and the tag is one of the six |
| `Lib.ToBinWithOptions` | src/lib.rs:58-77 | an unreadable request gives `InvalidOption` and a bad encoding byte gives `InvalidEncodingType`, both before the text is parsed; `InvalidXML` only once the request has resolved; then `ToBinary` when the codec cannot serialise and `ResultConversion` when the host cannot take the result, each exactly in its case; otherwise success, with the codec's output under the resolved options and the caller's encoding byte, or `0x00` when none was given, which is one of the six tags |
| `Lib.ReportedEncoding` | src/lib.rs:69-72 | the caller's byte, or `0x00` when none is given; for a request that resolves, the tag of the encoding the codec is asked for, or of `None` |
| `Lib.ToBinWithOptionsIgnoresDeclaredEncoding` | src/lib.rs:64 | the result does not depend on the encoding the document declares |
| `Lib.ToBinReportsDeclaredEncoding` | src/lib.rs:43-50 | `to_bin` reports the tag of whatever encoding the document declares |
| `Lib.ToXml` | src/lib.rs:81-99 | errors in the order `InvalidXML`, then `ToXml` or `Utf8Error`, then `ResultConversion`; once the codec text decodes, `ResultConversion` exactly when the host cannot take the result and success otherwise; the data is then the compact form of the decoded text, so it has no `'\n'` and no leading or trailing whitespace, and the reported byte is the tag of the encoding the binary declares |

## Left out

- The `kbinxml` codec: text and binary parsing, binary and text
  serialisation, the node tree and the byte layout. These come from a foreign
  crate. Each call is a total function that fails or succeeds.
  `EncodingType::from_byte` also belongs to that crate. It is modelled from
  the tag table documented at `src/lib.rs:21-22`.
- The codec's builder defaults. A codec option the boundary never sets is
  `None` in `Kbinxml.Options` and keeps the crate's own default. This covers
  the compression chosen by `Options::with_encoding` in `to_bin`, and the
  encoding when a request gives none.
- `serde_wasm_bindgen` marshalling: each call only succeeds or fails.
- The conversion of errors to host errors. The Rust entry points return
  `JsError`, which `?` builds from the error's display text. The entry points
  here return the `KbinXMLError` itself. `Errors.MessageInjective` shows that
  the text determines the variant, so nothing is lost.
- Lib.ToBin, Lib.ToBinWithOptions, Lib.ToXml: each returns the result record
  that the host value was marshalled from, not the host value. The
  `unchecked_into` casts to the host's declared types are left out.
- `set_panic_hook`, the `wee_alloc` allocator, the `#[wasm_bindgen]` extern
  types and the TypeScript declaration text. These are host setup with no
  conversion logic. Only the tag table in that text is used.
- `src/types.rs`: its records appear as plain datatypes and carry no logic.
- `dist/kbinxml.d.ts` is not part of this model. It declares an older
  `encode`/`decode` API that the Rust code no longer has.
- The round trip "text to binary to text gives the same document" depends on
  the codec, so it is not stated.
