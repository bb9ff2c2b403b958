/** The errors that cross the host boundary, and their display messages. */
module Errors {
  import opened Base

  datatype KbinXMLError =
    | InvalidXML
    | InvalidOption
    | InvalidEncodingType
    | ToXml
    | ToBinary
    | ResultConversion
    | Utf8Error

  /** Every variant, each once. */
  const AllErrors: seq<KbinXMLError> :=
    [InvalidXML, InvalidOption, InvalidEncodingType, ToXml, ToBinary, ResultConversion, Utf8Error]

  /** The variant a display message belongs to, if any. */
  function FromMessage(m: string): (r: Option<KbinXMLError>)
  {
    if m == "invalid xml" then Some(InvalidXML)
    else if m == "invalid option" then Some(InvalidOption)
    else if m == "invalid encoding type" then Some(InvalidEncodingType)
    else if m == "to_binary error" then Some(ToBinary)
    else if m == "to_xml error" then Some(ToXml)
    else if m == "result data conversion error" then Some(ResultConversion)
    else if m == "from_utf8 error" then Some(Utf8Error)
    else None
  }

  /** The display message of an error: non-empty, and it names the variant. */
  function Message(e: KbinXMLError): (m: string)
    ensures |m| > 0
    ensures FromMessage(m) == Some(e)
  {
    match e
    case InvalidXML => "invalid xml"
    case InvalidOption => "invalid option"
    case InvalidEncodingType => "invalid encoding type"
    case ToBinary => "to_binary error"
    case ToXml => "to_xml error"
    case ResultConversion => "result data conversion error"
    case Utf8Error => "from_utf8 error"
  }

  /** There are exactly seven variants. */
  lemma SevenVariants()
    ensures |AllErrors| == 7
    ensures forall e: KbinXMLError :: e in AllErrors
    ensures forall i, j :: 0 <= i < j < |AllErrors| ==> AllErrors[i] != AllErrors[j]
  {
    forall e: KbinXMLError ensures e in AllErrors {
      match e
      case InvalidXML => assert AllErrors[0] == e;
      case InvalidOption => assert AllErrors[1] == e;
      case InvalidEncodingType => assert AllErrors[2] == e;
      case ToXml => assert AllErrors[3] == e;
      case ToBinary => assert AllErrors[4] == e;
      case ResultConversion => assert AllErrors[5] == e;
      case Utf8Error => assert AllErrors[6] == e;
    }
  }

  /** The message determines the variant: the seven messages are pairwise distinct. */
  lemma MessageInjective(e1: KbinXMLError, e2: KbinXMLError)
    ensures Message(e1) == Message(e2) ==> e1 == e2
  {
    if Message(e1) == Message(e2) {
      assert Some(e1) == FromMessage(Message(e1)) == FromMessage(Message(e2)) == Some(e2);
    }
  }
}
