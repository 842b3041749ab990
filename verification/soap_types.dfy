/** The records a decoded SOAP 1.1 fault is returned in (section 4.4 of the
    SOAP 1.1 W3C Note, with Exchange's vendor detail), the error taxonomy of
    the envelope layer, and the two namespace URIs the envelope declares. */
module SoapTypes {
  import opened Wrappers

  const SOAP_NS_URI: string := "http://schemas.xmlsoap.org/soap/envelope/"
  const TYPES_NS_URI: string := "http://schemas.microsoft.com/exchange/services/2006/types"

  /** Values of a 64-bit `usize`. */
  const USIZE_LIMIT: nat := 0x1_0000_0000_0000_0000
  type Usize = n: nat | n < USIZE_LIMIT

  /** Exchange's machine-readable diagnostic payload: its raw inner text and the
      retry delay the server asked for, when it gave one. */
  datatype MessageXml = MessageXml(content: string, backOffMilliseconds: Option<Usize>)

  /** The vendor content of a fault's `detail` element. */
  datatype FaultDetail = FaultDetail(
    responseCode: Option<string>,
    message: Option<string>,
    messageXml: Option<MessageXml>,
    content: Option<string>)

  /** The detail record before any child has been read. */
  const NoDetail := FaultDetail(None, None, None, None)

  datatype Fault = Fault(
    faultCode: string,
    faultString: string,
    faultActor: Option<string>,
    detail: Option<FaultDetail>)

  datatype Error =
    | Serialize(cause: string)          // the body failed to render as XML
    | Deserialize(cause: string)        // the typed decode rejected the document
    | Xml                               // the tokenizer failed, or an end tag is missing
    | UnexpectedResponse(document: string)
    | RequestFault(fault: Fault)
}
