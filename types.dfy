/** The records exchanged with the host, and the host's marshalling
    (`serde_wasm_bindgen`), which either succeeds or fails. */
module Types {
  import opened Base

  /** The caller's conversion request: both fields optional. */
  datatype BinaryOptions = BinaryOptions(compression: Option<bool>, encoding: Option<byte>)

  /** The result of binary-to-text conversion. */
  datatype XmlResult = XmlResult(data: string, encoding: byte)

  /** The result of text-to-binary conversion. */
  datatype BinaryResult = BinaryResult(data: seq<byte>, encoding: byte)

  /** A value of the host runtime; its representation belongs to the host. */
  type JsValue

  /** The host marshalling the boundary uses; `None` is any failure. */
  datatype Host = Host(
    /** `serde_wasm_bindgen::from_value` into a `BinaryOptions`. */
    optionsFromValue: JsValue -> Option<BinaryOptions>,
    /** `serde_wasm_bindgen::to_value` of an `XmlResult`. */
    xmlToValue: XmlResult -> Option<JsValue>,
    /** `serde_wasm_bindgen::to_value` of a `BinaryResult`. */
    binaryToValue: BinaryResult -> Option<JsValue>)
}
